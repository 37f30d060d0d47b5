/** The printer of expression trees (parenthesised infix) and, as its partner,
    a parser that reads the printed text back. */
module Printer {
  import opened Expressions

  datatype Option<T> = None | Some(value: T)

  /** The operator's text in FUNCTIONS. */
  function OpName(op: BinOp): string {
    match op
    case Add => "+"
    case Sub => "-"
    case Mul => "*"
    case Div => "/"
    case Gt => ">"
    case Lt => "<"
    case And => "and"
    case Or => "or"
  }

  function PropName(p: Prop): string {
    match p
    case W => "w"
    case V => "v"
    case T => "t"
  }

  predicate IsDigit(c: char) {
    '0' <= c <= '9'
  }

  function DigitChar(d: nat): (c: char)
    requires d < 10
    ensures IsDigit(c)
  {
    ('0' as int + d) as char
  }

  function DigitValue(c: char): (d: nat)
    requires IsDigit(c)
    ensures d < 10
  {
    c as int - '0' as int
  }

  /** Decimal digits of a natural number, without leading zeros. */
  function NatName(n: nat): (s: string)
    ensures |s| > 0
    ensures forall i :: 0 <= i < |s| ==> IsDigit(s[i])
  {
    if n < 10 then [DigitChar(n)] else NatName(n / 10) + [DigitChar(n % 10)]
  }

  /** Python's `str` of an integer: a minus sign before the digits of a negative number. */
  function IntName(n: int): string {
    if n < 0 then "-" + NatName(-n) else NatName(n)
  }

  /** `print_expression`: `(left op right)` for an operator node, the terminal's text for a leaf. */
  function PrintExpression(e: Expr): (s: string)
    ensures |s| > 0 && (s[0] == '(' <==> e.Op?)
  {
    match e
    case Op(op, l, r) => "(" + PrintExpression(l) + " " + OpName(op) + " " + PrintExpression(r) + ")"
    case Var(p) => PropName(p)
    case Lit(n) => IntName(n)
  }

  // ---------------------------------------------------------------------------
  // Reading printed text back

  /** The value of a nonempty string of decimal digits. */
  function NatOf(s: string): (r: Option<nat>)
    ensures r.Some? ==> |s| > 0
  {
    if |s| == 0 || !IsDigit(s[|s| - 1]) then None
    else if |s| == 1 then Some(DigitValue(s[0]))
    else match NatOf(s[..|s| - 1])
      case None => None
      case Some(m) => Some(m * 10 + DigitValue(s[|s| - 1]))
  }

  function IntOf(s: string): (r: Option<int>)
    ensures r.Some? ==> |s| > 0
  {
    if |s| > 0 && s[0] == '-' then
      match NatOf(s[1..])
      case None => None
      case Some(m) => Some(0 - m)
    else
      match NatOf(s)
      case None => None
      case Some(m) => Some(m)
  }

  /** The leaf whose text is `name`. */
  function TerminalOf(name: string): (r: Option<Expr>)
    ensures r.Some? ==> |name| > 0 && !r.value.Op?
  {
    if name == "w" then Some(Var(W))
    else if name == "v" then Some(Var(V))
    else if name == "t" then Some(Var(T))
    else match IntOf(name)
      case None => None
      case Some(n) => Some(Lit(n))
  }

  function OpOf(name: string): Option<BinOp> {
    if name == "+" then Some(Add)
    else if name == "-" then Some(Sub)
    else if name == "*" then Some(Mul)
    else if name == "/" then Some(Div)
    else if name == ">" then Some(Gt)
    else if name == "<" then Some(Lt)
    else if name == "and" then Some(And)
    else if name == "or" then Some(Or)
    else None
  }

  predicate IsDelimiter(c: char) {
    c == ' ' || c == ')'
  }

  /** The longest prefix of `s` without a blank or a closing parenthesis. */
  function Token(s: string): (t: string)
    ensures |t| <= |s| && t == s[..|t|]
  {
    if |s| == 0 || IsDelimiter(s[0]) then [] else [s[0]] + Token(s[1..])
  }

  /** Reads one expression from the front of `s`; returns it with the unread rest. */
  function ParseExpression(s: string): (r: Option<(Expr, string)>)
    ensures r.Some? ==> |r.value.1| < |s|
    decreases |s|
  {
    if |s| == 0 then None
    else if s[0] == '(' then
      match ParseExpression(s[1..])
      case None => None
      case Some((l, s1)) =>
        if |s1| == 0 || s1[0] != ' ' then None
        else
          var name := Token(s1[1..]);
          var s2 := s1[1 + |name|..];
          match OpOf(name)
          case None => None
          case Some(op) =>
            if |s2| == 0 || s2[0] != ' ' then None
            else
              match ParseExpression(s2[1..])
              case None => None
              case Some((r, s3)) =>
                if |s3| == 0 || s3[0] != ')' then None
                else Some((Op(op, l, r), s3[1..]))
    else
      var name := Token(s);
      match TerminalOf(name)
      case None => None
      case Some(t) => Some((t, s[|name|..]))
  }

  // ---------------------------------------------------------------------------
  // The round trip

  lemma {:induction false} NatRoundTrip(n: nat)
    ensures NatOf(NatName(n)) == Some(n)
  {
    if n >= 10 {
      var s := NatName(n);
      assert s[..|s| - 1] == NatName(n / 10);
      NatRoundTrip(n / 10);
    }
  }

  lemma IntRoundTrip(n: int)
    ensures IntOf(IntName(n)) == Some(n)
  {
    if n < 0 {
      SplitFirst("-", NatName(-n));
      NatRoundTrip(-n);
    } else {
      var s := NatName(n);
      assert IsDigit(s[0]) && s[0] != '-';
      NatRoundTrip(n);
    }
  }

  /** The text of a leaf has no parentheses or blanks and reads back as that leaf. */
  lemma LeafRoundTrip(e: Expr)
    requires !e.Op?
    ensures |PrintExpression(e)| > 0 && PrintExpression(e)[0] != '('
    ensures forall i :: 0 <= i < |PrintExpression(e)| ==> !IsDelimiter(PrintExpression(e)[i])
    ensures TerminalOf(PrintExpression(e)) == Some(e)
  {
    match e
    case Var(_) =>
    case Lit(n) =>
      var s := IntName(n);
      assert s[0] == '-' || IsDigit(s[0]);
      IntRoundTrip(n);
  }

  lemma {:induction false} TokenOfConcat(t: string, rest: string)
    requires forall i :: 0 <= i < |t| ==> !IsDelimiter(t[i])
    requires rest == [] || IsDelimiter(rest[0])
    ensures Token(t + rest) == t
  {
    if |t| > 0 {
      assert (t + rest)[1..] == t[1..] + rest;
      TokenOfConcat(t[1..], rest);
    }
  }

  lemma OpNameRoundTrip(op: BinOp)
    ensures forall i :: 0 <= i < |OpName(op)| ==> !IsDelimiter(OpName(op)[i])
    ensures OpOf(OpName(op)) == Some(op)
  {
  }

  /** How the parser reads an operator node, given what it reads for its parts. */
  lemma ParseOpStep(s: string, l: Expr, s1: string, name: string, op: BinOp, s2: string, r: Expr, s3: string)
    requires |s| > 0 && s[0] == '('
    requires ParseExpression(s[1..]) == Some((l, s1))
    requires |s1| > 0 && s1[0] == ' ' && Token(s1[1..]) == name && s2 == s1[1 + |name|..]
    requires OpOf(name) == Some(op)
    requires |s2| > 0 && s2[0] == ' ' && ParseExpression(s2[1..]) == Some((r, s3))
    requires |s3| > 0 && s3[0] == ')'
    ensures ParseExpression(s) == Some((Op(op, l, r), s3[1..]))
  {
  }

  /** Concatenation regroups; a step in placing the parts of printed text. */
  lemma Regroup(a: string, b: string, c: string)
    ensures (a + b) + c == a + (b + c)
  {
  }

  /** A one-character prefix is the first character, and dropping it leaves the rest. */
  lemma SplitFirst(c: string, t: string)
    requires |c| == 1
    ensures |c + t| > 0 && (c + t)[0] == c[0] && (c + t)[1..] == t
  {
  }

  /** Where the parts of `(pl name pr)` followed by `rest` sit in the text. */
  lemma OpTextLayout(pl: string, name: string, pr: string, rest: string)
    requires forall i :: 0 <= i < |name| ==> !IsDelimiter(name[i])
    ensures var s3 := ")" + rest;
            var s2 := " " + (pr + s3);
            var s1 := " " + (name + s2);
            var s := "(" + pl + " " + name + " " + pr + ")" + rest;
            && |s| > 0 && s[0] == '(' && s[1..] == pl + s1
            && |s1| > 0 && s1[0] == ' ' && Token(s1[1..]) == name && s1[1 + |name|..] == s2
            && |s2| > 0 && s2[0] == ' ' && s2[1..] == pr + s3
            && |s3| > 0 && s3[0] == ')' && s3[1..] == rest
  {
    var s3 := ")" + rest;
    var s2 := " " + (pr + s3);
    var s1 := " " + (name + s2);
    var a5 := "(" + pl;
    var a4 := a5 + " ";
    var a3 := a4 + name;
    var a2 := a3 + " ";
    var a1 := a2 + pr;
    Regroup(a1, ")", rest);
    Regroup(a2, pr, s3);
    Regroup(a3, " ", pr + s3);
    Regroup(a4, name, s2);
    Regroup(a5, " ", name + s2);
    Regroup("(", pl, s1);
    SplitFirst("(", pl + s1);
    SplitFirst(" ", name + s2);
    SplitFirst(" ", pr + s3);
    SplitFirst(")", rest);
    TokenOfConcat(name, s2);
    assert (name + s2)[|name|..] == s2;
  }

  /** Printing then parsing gives the tree back, leaving whatever followed the text unread. */
  lemma {:induction false} ParsePrinted(e: Expr, rest: string)
    requires rest == [] || IsDelimiter(rest[0])
    ensures ParseExpression(PrintExpression(e) + rest) == Some((e, rest))
  {
    match e
    case Op(op, l, r) =>
      var s3 := ")" + rest;
      var s2 := " " + (PrintExpression(r) + s3);
      var s1 := " " + (OpName(op) + s2);
      OpNameRoundTrip(op);
      OpTextLayout(PrintExpression(l), OpName(op), PrintExpression(r), rest);
      ParsePrinted(l, s1);
      ParsePrinted(r, s3);
      ParseOpStep(PrintExpression(e) + rest, l, s1, OpName(op), op, s2, r, s3);
    case _ =>
      var s := PrintExpression(e) + rest;
      LeafRoundTrip(e);
      TokenOfConcat(PrintExpression(e), rest);
      assert s[|PrintExpression(e)|..] == rest;
  }

  /** The printed text of a tree reads back as exactly that tree. */
  lemma PrintParse(e: Expr)
    ensures ParseExpression(PrintExpression(e)) == Some((e, ""))
  {
    ParsePrinted(e, "");
    assert PrintExpression(e) + "" == PrintExpression(e);
  }

  /** Trees with the same text are the same tree. */
  lemma PrintInjective(a: Expr, b: Expr)
    requires PrintExpression(a) == PrintExpression(b)
    ensures a == b
  {
    PrintParse(a);
    PrintParse(b);
  }
}
