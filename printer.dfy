// Pretty-printing of expression trees (`PrettyPrinter`, `DefaultFormatter`,
// `LaTeXFormatter`).  Printing appends text to a stream; here it returns
// the text.  How a user object or a double is written by its own
// `operator<<` is a parameter.
module Printer {
  import opened Wrappers
  import opened Ops
  import opened Tags
  import opened Nodes
  import opened Terms
  import opened Decimal
  import opened Brackets

  /** The two formatters: plain text, and rudimentary LaTeX. */
  datatype Formatter = DefaultFormatter | LaTeXFormatter

  function LeftDelimiter(f: Formatter): string
  {
    if f == DefaultFormatter then "(" else "\\left( "
  }

  function RightDelimiter(f: Formatter): string
  {
    if f == DefaultFormatter then ")" else "\\right) "
  }

  function OneText(f: Formatter): string
  {
    if f == DefaultFormatter then "1" else "1 "
  }

  function ZeroText(f: Formatter): string
  {
    if f == DefaultFormatter then "0" else "0 "
  }

  function PowBegin(f: Formatter): string
  {
    if f == DefaultFormatter then "" else "{"
  }

  function PowInter(f: Formatter): string
  {
    if f == DefaultFormatter then "^" else "}^{"
  }

  function PowEnd(f: Formatter): string
  {
    if f == DefaultFormatter then "" else "} "
  }

  function FractionBegin(f: Formatter): string
  {
    if f == DefaultFormatter then "" else "\\frac{"
  }

  function FractionInter(f: Formatter): string
  {
    if f == DefaultFormatter then " / " else "}{"
  }

  function FractionEnd(f: Formatter): string
  {
    if f == DefaultFormatter then "" else "} "
  }

  /** `Formatter::Print<OP>` for a unary operation: its symbol between
    * blanks. */
  function UnaryOpText(f: Formatter, op: UnaryOp): string
  {
    " " + UnarySymbol(op) + " "
  }

  /** `Formatter::Print<OP>` for a binary operation: its symbol between
    * blanks, except that LaTeX writes `==` and `%=` as `=` and leaves a
    * product's `*` out. */
  function BinaryOpText(f: Formatter, op: BinaryOp): (r: string)
    ensures f == LaTeXFormatter && op == Multiply ==> r == ""
    ensures f == LaTeXFormatter && op in {Equal, ModuloAndAssign} ==> r == " = "
    ensures f == DefaultFormatter || op !in {Multiply, Equal, ModuloAndAssign} ==>
              r == " " + BinarySymbol(op) + " "
  {
    if f == LaTeXFormatter && (op == Equal || op == ModuloAndAssign) then " = "
    else if f == LaTeXFormatter && op == Multiply then ""
    else " " + BinarySymbol(op) + " "
  }

  /** No operator symbol between blanks is one of LaTeX's special texts. */
  lemma PaddedSymbolNotSpecial(op: BinaryOp)
    ensures " " + BinarySymbol(op) + " " != " = " && " " + BinarySymbol(op) + " " != ""
  {
    var p := " " + BinarySymbol(op) + " ";
    assert |p| == |BinarySymbol(op)| + 2 && p[1] == BinarySymbol(op)[0];
  }

  /** The text of an operator names it: the default formatter prints
    * different operators differently, and LaTeX confuses only `==` with
    * `%=`. */
  lemma BinaryOpTextNamesOperation(f: Formatter, a: BinaryOp, b: BinaryOp)
    requires BinaryOpText(f, a) == BinaryOpText(f, b)
    ensures a == b || (f == LaTeXFormatter && a in {Equal, ModuloAndAssign} && b in {Equal, ModuloAndAssign})
  {
    var s, t := BinaryOpText(f, a), BinaryOpText(f, b);
    var plainA, plainB := s == " " + BinarySymbol(a) + " ", t == " " + BinarySymbol(b) + " ";
    PaddedSymbolNotSpecial(a);
    PaddedSymbolNotSpecial(b);
    if plainA && plainB {
      assert BinarySymbol(a) == s[1..|s| - 1];
      assert BinarySymbol(b) == t[1..|t| - 1];
      BinarySymbolInjective(a, b);
    }
  }

  /** How the leaves print through their own `operator<<`: a user object
    * (by its identity), and a double. */
  datatype LeafTexts = LeafTexts(objectText: nat -> string, numberText: real -> string)

  /** The text between the delimiters when `d` holds. */
  function Delimit(f: Formatter, d: bool, s: string): string
  {
    if d then LeftDelimiter(f) + s + RightDelimiter(f) else s
  }

  /** The argument of a unary operation is delimited when it is a sum, a
    * difference, a product or a quotient. */
  predicate UnaryDelimits(arg: TopOperator)
  {
    arg in {BinTop(Plus), BinTop(Minus), BinTop(Multiply), BinTop(Divide)}
  }

  /** The base of a power is delimited also when it is a negation. */
  predicate PowerDelimits(arg: TopOperator)
  {
    UnaryDelimits(arg) || arg == UnTop(UMinus)
  }

  /** An operand of a binary operation is delimited when it is a negation,
    * and an operand of a product or a quotient also when it is a sum or a
    * difference. */
  predicate BinaryDelimits(op: BinaryOp, operand: TopOperator)
  {
    (op in {Multiply, Divide} && operand in {BinTop(Plus), BinTop(Minus)}) ||
    operand == UnTop(UMinus)
  }

  /** Two texts between the fraction texts. */
  function Fraction(f: Formatter, a: string, b: string): string
  {
    FractionBegin(f) + a + FractionInter(f) + b + FractionEnd(f)
  }

  /** The exponent `m/n` after `PowInter`: `m` alone for `n == 1`,
    * delimited when negative, otherwise the fraction `m / n` delimited. */
  function ExponentText(f: Formatter, m: int, n: int): string
  {
    if n == 1 then Delimit(f, m < 0, IntText(m))
    else Delimit(f, true, Fraction(f, IntText(m), IntText(n)))
  }

  /** `PrettyPrinter<Formatter, T>::Print`.  A leaf prints through its own
    * `operator<<` (an integer literal in decimal); Zero and One print their
    * formatter text and a blank; a negative Scalar is delimited; a unary
    * operation prints its symbol and then its argument; a power prints its
    * base and its exponent between the power texts; a quotient prints its
    * operands between the fraction texts, any other binary operation its
    * symbol between its operands. */
  function Print(f: Formatter, texts: LeafTexts, e: Node): string
  {
    match e
    case Leaf(k, id) => if k.Object? then texts.objectText(id) else IntText(k.value)
    case Null(_) => ZeroText(f) + " "
    case One(_) => OneText(f) + " "
    case Scalar(v, _) => Delimit(f, v < 0.0, texts.numberText(v))
    case Un(op, a) => UnaryText(f, op, TopOp(a), Print(f, texts, a))
    case Pow(m, n, a) => PowerText(f, m, n, TopOp(a), Print(f, texts, a))
    case Bin(op, l, r) => BinaryText(f, op, TopOp(l), TopOp(r), Print(f, texts, l), Print(f, texts, r))
  }

  /** A unary node whose argument, topped by `top`, prints as `s`. */
  function UnaryText(f: Formatter, op: UnaryOp, top: TopOperator, s: string): string
  {
    UnaryOpText(f, op) + Delimit(f, UnaryDelimits(top), s)
  }

  /** A power whose base, topped by `top`, prints as `s`. */
  function PowerText(f: Formatter, m: int, n: int, top: TopOperator, s: string): string
  {
    PowBegin(f) + Delimit(f, PowerDelimits(top), s) + PowInter(f) + ExponentText(f, m, n) + PowEnd(f)
  }

  /** A binary node whose operands, topped by `tl` and `tr`, print as `sl`
    * and `sr`. */
  function BinaryText(f: Formatter, op: BinaryOp, tl: TopOperator, tr: TopOperator, sl: string, sr: string): string
  {
    var dl := Delimit(f, BinaryDelimits(op, tl), sl);
    var dr := Delimit(f, BinaryDelimits(op, tr), sr);
    if op == Divide then Fraction(f, dl, dr) else dl + BinaryOpText(f, op) + dr
  }

  /** `os << E` (default formatter) and `os << LaTeX() << E`: an `Expr`, a
    * changer and a by-reference leaf print exactly as what they hold. */
  function PrintTerm(f: Formatter, texts: LeafTexts, t: Term): (r: string)
    ensures r == Print(f, texts, if t.Plain? then t.node else t.content)
  {
    match t
    case Plain(n) => Print(f, texts, n)
    case Wrapped(n) => Print(f, texts, n)
    case Changed(n, _) => Print(f, texts, n)
  }

  /** An expression built by a binary operator function prints as its
    * operands' texts around the operator, bracketed by what `ExtractOp`
    * says of each operand. */
  lemma PrintBinaryNode(f: Formatter, texts: LeafTexts, op: BinaryOp, lhs: Term, rhs: Term)
    requires BinaryNode(op, lhs, rhs).Ok?
    ensures PrintTerm(f, texts, BinaryNode(op, lhs, rhs).value)
            == BinaryText(f, op, ExtractOp(lhs), ExtractOp(rhs), PrintTerm(f, texts, lhs), PrintTerm(f, texts, rhs))
  {
  }

  /** Likewise for a unary operator function. */
  lemma PrintUnaryNode(f: Formatter, texts: LeafTexts, op: UnaryOp, arg: Term)
    requires UnaryNode(op, arg).Ok?
    ensures PrintTerm(f, texts, UnaryNode(op, arg).value)
            == UnaryText(f, op, ExtractOp(arg), PrintTerm(f, texts, arg))
  {
  }

  /** A by-reference leaf prints as the object it refers to: the text does
    * not depend on how the leaf was captured. */
  lemma ByReferenceTransparent(f: Formatter, texts: LeafTexts, name: string, d: Option<Tag>, id: nat)
    ensures Print(f, texts, Leaf(Object(name, d, true), id)) == Print(f, texts, Leaf(Object(name, d, false), id))
            == texts.objectText(id)
  {
  }

  // ---------------------------------------------------------------------
  // The printed text is balanced in its parentheses and, for LaTeX, in its
  // braces, provided the leaves' own texts are.

  /** The bracket pairs the formatters use. */
  predicate BracketPair(open: char, close: char)
  {
    (open == '(' && close == ')') || (open == '{' && close == '}')
  }

  /** The formatter texts frame what they surround. */
  lemma FormatterFrames(f: Formatter, open: char, close: char)
    requires BracketPair(open, close)
    ensures Frame(LeftDelimiter(f), RightDelimiter(f), open, close)
    ensures Frame3(PowBegin(f), PowInter(f), PowEnd(f), open, close)
    ensures Frame3(FractionBegin(f), FractionInter(f), FractionEnd(f), open, close)
    ensures Balanced(OneText(f) + " ", open, close) && Balanced(ZeroText(f) + " ", open, close)
  {
    if f == DefaultFormatter {
      DefaultFrames(open, close);
    } else {
      LaTeXDelimiters(open, close);
      LaTeXPowers(open, close);
      LaTeXFractions(open, close);
    }
    ConstantsBalanced(f, open, close);
  }

  lemma ConstantsBalanced(f: Formatter, open: char, close: char)
    requires BracketPair(open, close)
    ensures Balanced(OneText(f) + " ", open, close) && Balanced(ZeroText(f) + " ", open, close)
  {
    if f == DefaultFormatter {
      assert OneText(f) + " " == "1 " && ZeroText(f) + " " == "0 ";
      NoBrackets("1 ", open, close);
      NoBrackets("0 ", open, close);
    } else {
      assert OneText(f) + " " == "1  " && ZeroText(f) + " " == "0  ";
      NoBrackets("1  ", open, close);
      NoBrackets("0  ", open, close);
    }
  }

  lemma DefaultFrames(open: char, close: char)
    requires BracketPair(open, close)
    ensures Frame("(", ")", open, close)
    ensures Balanced("", open, close) && Balanced("^", open, close) && Balanced(" / ", open, close)
  {
    OneBracket("(", "", '(', "", open, close);
    OneBracket(")", "", ')', "", open, close);
    NoBrackets("", open, close);
    NoBrackets("^", open, close);
    NoBrackets(" / ", open, close);
  }

  lemma LaTeXDelimiters(open: char, close: char)
    requires BracketPair(open, close)
    ensures Frame("\\left( ", "\\right) ", open, close)
  {
    OneBracket("\\left( ", "\\left", '(', " ", open, close);
    OneBracket("\\right) ", "\\right", ')', " ", open, close);
  }

  lemma LaTeXPowers(open: char, close: char)
    requires BracketPair(open, close)
    ensures Frame3("{", "}^{", "} ", open, close)
  {
    OneBracket("{", "", '{', "", open, close);
    OneBracket("}^", "", '}', "^", open, close);
    OneBracket("{", "", '{', "", open, close);
    OneBracket("} ", "", '}', " ", open, close);
    Concat("}^", "{", open, close);
    assert "}^{" == "}^" + "{";
  }

  lemma LaTeXFractions(open: char, close: char)
    requires BracketPair(open, close)
    ensures Frame3("\\frac{", "}{", "} ", open, close)
  {
    OneBracket("\\frac{", "\\frac", '{', "", open, close);
    OneBracket("}", "", '}', "", open, close);
    OneBracket("{", "", '{', "", open, close);
    OneBracket("} ", "", '}', " ", open, close);
    Concat("}", "{", open, close);
    assert "}{" == "}" + "{";
  }

  /** Operator texts hold no brackets. */
  lemma OpTextsBalanced(f: Formatter, u: UnaryOp, b: BinaryOp, open: char, close: char)
    requires BracketPair(open, close)
    ensures Balanced(UnaryOpText(f, u), open, close) && Balanced(BinaryOpText(f, b), open, close)
  {
    UnaryOpTextFree(f, u, open, close);
    BinaryOpTextFree(f, b, open, close);
    NoBrackets(UnaryOpText(f, u), open, close);
    NoBrackets(BinaryOpText(f, b), open, close);
  }

  lemma UnaryOpTextFree(f: Formatter, u: UnaryOp, open: char, close: char)
    requires BracketPair(open, close)
    ensures Free(UnaryOpText(f, u), open, close)
  {
    var s := UnaryOpText(f, u);
    var sym := UnarySymbol(u);
    assert forall k :: 0 <= k < |sym| ==> sym[k] in "+-~!&*DoNthing";
    forall k | 0 <= k < |s|
      ensures s[k] != open && s[k] != close
    {
      assert s[k] == ' ' || s[k] == sym[k - 1];
    }
  }

  lemma BinaryOpTextFree(f: Formatter, b: BinaryOp, open: char, close: char)
    requires BracketPair(open, close)
    ensures Free(BinaryOpText(f, b), open, close)
  {
    var s := BinaryOpText(f, b);
    var sym := BinarySymbol(b);
    assert forall k :: 0 <= k < |sym| ==> sym[k] in "*/%+-<>=!&^|";
    forall k | 0 <= k < |s|
      ensures s[k] != open && s[k] != close
    {
      if s != " = " && s != "" {
        assert s == " " + sym + " ";
        assert s[k] == ' ' || s[k] == sym[k - 1];
      }
    }
  }

  /** Integer texts hold no brackets. */
  lemma IntTextBalanced(i: int, open: char, close: char)
    requires BracketPair(open, close)
    ensures Balanced(IntText(i), open, close)
  {
    var t := IntText(i);
    IntTextChars(i);
    forall k | 0 <= k < |t|
      ensures t[k] != open && t[k] != close
    {
      assert t[k] == '-' || '0' <= t[k] <= '9';
    }
    NoBrackets(t, open, close);
  }

  lemma DelimitBalanced(f: Formatter, d: bool, s: string, open: char, close: char)
    requires BracketPair(open, close) && Balanced(s, open, close)
    ensures Balanced(Delimit(f, d, s), open, close)
  {
    if d {
      FormatterFrames(f, open, close);
      FrameBalanced(LeftDelimiter(f), s, RightDelimiter(f), open, close);
    }
  }

  lemma FractionBalanced(f: Formatter, a: string, b: string, open: char, close: char)
    requires BracketPair(open, close) && Balanced(a, open, close) && Balanced(b, open, close)
    ensures Balanced(Fraction(f, a, b), open, close)
  {
    FormatterFrames(f, open, close);
    Frame3Balanced(FractionBegin(f), a, FractionInter(f), b, FractionEnd(f), open, close);
  }

  lemma ExponentBalanced(f: Formatter, m: int, n: int, open: char, close: char)
    requires BracketPair(open, close)
    ensures Balanced(ExponentText(f, m, n), open, close)
  {
    var tm, tn := IntText(m), IntText(n);
    IntTextBalanced(m, open, close);
    IntTextBalanced(n, open, close);
    if n == 1 {
      DelimitBalanced(f, m < 0, tm, open, close);
    } else {
      FractionBalanced(f, tm, tn, open, close);
      DelimitBalanced(f, true, Fraction(f, tm, tn), open, close);
    }
  }

  /** Leaves whose own texts are balanced. */
  ghost predicate TextsBalanced(texts: LeafTexts, open: char, close: char)
  {
    (forall id :: Balanced(texts.objectText(id), open, close)) &&
    (forall v :: Balanced(texts.numberText(v), open, close))
  }

  /** Every delimiter, power and fraction the printer opens it also closes,
    * after everything it surrounds: the text is balanced. */
  lemma {:induction false} PrintBalanced(f: Formatter, texts: LeafTexts, e: Node, open: char, close: char)
    requires BracketPair(open, close) && TextsBalanced(texts, open, close)
    ensures Balanced(Print(f, texts, e), open, close)
  {
    match e
    case Leaf(k, id) =>
      if !k.Object? {
        IntTextBalanced(k.value, open, close);
      }
    case Null(_) =>
      ConstantsBalanced(f, open, close);
    case One(_) =>
      ConstantsBalanced(f, open, close);
    case Scalar(v, _) =>
      DelimitBalanced(f, v < 0.0, texts.numberText(v), open, close);
    case Un(op, a) =>
      PrintBalanced(f, texts, a, open, close);
      UnaryTextBalanced(f, op, TopOp(a), Print(f, texts, a), open, close);
    case Pow(m, n, a) =>
      PrintBalanced(f, texts, a, open, close);
      PowerTextBalanced(f, m, n, TopOp(a), Print(f, texts, a), open, close);
    case Bin(op, l, r) =>
      PrintBalanced(f, texts, l, open, close);
      PrintBalanced(f, texts, r, open, close);
      BinaryTextBalanced(f, op, TopOp(l), TopOp(r), Print(f, texts, l), Print(f, texts, r), open, close);
  }

  /** A unary node prints balanced when its argument does. */
  lemma UnaryTextBalanced(f: Formatter, op: UnaryOp, top: TopOperator, s: string, open: char, close: char)
    requires BracketPair(open, close) && Balanced(s, open, close)
    ensures Balanced(UnaryText(f, op, top, s), open, close)
  {
    OpTextsBalanced(f, op, Plus, open, close);
    DelimitBalanced(f, UnaryDelimits(top), s, open, close);
    BalancedConcat(UnaryOpText(f, op), Delimit(f, UnaryDelimits(top), s), open, close);
  }

  /** A power prints balanced when its base does. */
  lemma PowerTextBalanced(f: Formatter, m: int, n: int, top: TopOperator, s: string, open: char, close: char)
    requires BracketPair(open, close) && Balanced(s, open, close)
    ensures Balanced(PowerText(f, m, n, top, s), open, close)
  {
    var base := Delimit(f, PowerDelimits(top), s);
    FormatterFrames(f, open, close);
    DelimitBalanced(f, PowerDelimits(top), s, open, close);
    ExponentBalanced(f, m, n, open, close);
    Frame3Balanced(PowBegin(f), base, PowInter(f), ExponentText(f, m, n), PowEnd(f), open, close);
  }

  /** A binary node prints balanced when both operands do. */
  lemma BinaryTextBalanced(f: Formatter, op: BinaryOp, tl: TopOperator, tr: TopOperator, sl: string, sr: string,
                           open: char, close: char)
    requires BracketPair(open, close) && Balanced(sl, open, close) && Balanced(sr, open, close)
    ensures Balanced(BinaryText(f, op, tl, tr, sl, sr), open, close)
  {
    var dl := Delimit(f, BinaryDelimits(op, tl), sl);
    var dr := Delimit(f, BinaryDelimits(op, tr), sr);
    DelimitBalanced(f, BinaryDelimits(op, tl), sl, open, close);
    DelimitBalanced(f, BinaryDelimits(op, tr), sr, open, close);
    OpTextsBalanced(f, UPlus, op, open, close);
    JoinBalanced(f, op == Divide, dl, BinaryOpText(f, op), dr, open, close);
  }

  /** A fraction, or two balanced texts around a balanced operator text, is
    * balanced. */
  lemma JoinBalanced(f: Formatter, fraction: bool, a: string, m: string, b: string, open: char, close: char)
    requires BracketPair(open, close)
    requires Balanced(a, open, close) && Balanced(m, open, close) && Balanced(b, open, close)
    ensures Balanced(if fraction then Fraction(f, a, b) else a + m + b, open, close)
  {
    if fraction {
      FractionBalanced(f, a, b, open, close);
    } else {
      BalancedConcat(a, m, open, close);
      BalancedConcat(a + m, b, open, close);
    }
  }

}
