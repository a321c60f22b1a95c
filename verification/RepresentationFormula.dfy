/**
 Showing the sizes and positions of record components, which the compiler gives as formulas.
 */
module RepresentationFormula {
  import opened Wrappers
  import opened Sequences

  /** A value of the compiler's output: a number, a name, or an operator with its operands. */
  datatype Expr = Lit(n: int) | Name(s: string) | Op(code: string, operands: seq<Expr>)

  const CONDITIONAL := "?<>"

  predicate IsCall(code: string) { code == "max" || code == "min" }

  /** The operands that are printed: of a conditional, the first three. */
  function Shown(code: string, operands: seq<Expr>): seq<Expr>
    requires code == CONDITIONAL ==> |operands| >= 3
  {
    if code == CONDITIONAL then operands[..3] else operands
  }

  /** Every conditional that is printed has the three operands it needs. */
  predicate Printable(e: Expr) {
    e.Op? && e.code != "" && e.operands != [] ==>
      && (e.code == CONDITIONAL ==> |e.operands| >= 3)
      && forall o :: o in e.operands && o in Shown(e.code, e.operands) ==> Printable(o)
  }

  // ----- the text that is shown

  function Digits(n: nat): string {
    if n < 10 then [(n as char) + '0'] else Digits(n / 10) + [((n % 10) as char) + '0']
  }

  function IntText(n: int): string { if n < 0 then "-" + Digits(-n) else Digits(n) }

  /** The number that a text of digits shows, its last digit being the ones. */
  function Number(text: string): int {
    if text == "" then 0
    else
      var n := |text| - 1;
      10 * Number(text[..n]) + (text[n] as int - '0' as int)
  }

  /** The digits of a number show it, without needless zeros. */
  lemma {:induction false} DigitsShowNumber(n: nat)
    ensures forall c :: c in Digits(n) ==> '0' <= c <= '9'
    ensures Digits(n) != "" && Number(Digits(n)) == n && (n > 0 ==> Digits(n)[0] != '0')
  {
    if n < 10 {
      assert [(n as char) + '0'][..0] == "";
    } else {
      DigitsShowNumber(n / 10);
      var (front, last) := (Digits(n / 10), ((n % 10) as char) + '0');
      assert Digits(n) == front + [last] && (front + [last])[..|front|] == front;
    }
  }

  /** A minus stands in front of the digits exactly if the number is negative. */
  lemma IntTextShowsNumber(n: int)
    ensures var (text, size) := (IntText(n), if n < 0 then -n else n);
      && text != "" && (text[0] == '-' <==> n < 0)
      && Number(if n < 0 then text[1..] else text) == size
  {
    DigitsShowNumber(if n < 0 then -n else n);
    hide Digits, Number;
    if n < 0 { assert IntText(n)[1..] == Digits(-n); }
    assert n >= 0 ==> Digits(n)[0] in Digits(n);
  }

  function Joined(sep: string, parts: seq<string>): string {
    if parts == [] then "" else if |parts| == 1 then parts[0] else parts[0] + sep + Joined(sep, parts[1..])
  }

  function Formula(e: Expr): string
    requires Printable(e)
    decreases e, 1
  {
    match e
    case Lit(n) => IntText(n)
    case Name(s) => s
    case Op(code, operands) =>
      if code == "" || operands == [] then ""
      else if code == CONDITIONAL then
        "(if " + Formula(operands[0]) + " then " + Formula(operands[1]) + " else " + Formula(operands[2]) + " end)"
      else
        var evalList := Formulas(operands);
        if |operands| == 1 then code + evalList[0]
        else if IsCall(code) then code + "(" + Joined(", ", evalList) + ")"
        else "(" + Joined(" " + code + " ", evalList) + ")"
  }

  function Formulas(es: seq<Expr>): (r: seq<string>)
    requires forall e :: e in es ==> Printable(e)
    ensures |r| == |es|
    decreases es, 0
  {
    if es == [] then [] else [Formula(es[0])] + Formulas(es[1..])
  }

  /** Two operands or more stand in parentheses: behind the code for "max" and "min", and around it for all others. */
  lemma OperandsAreEnclosed(code: string, a: Expr, b: Expr)
    requires Printable(a) && Printable(b) && code != "" && code != CONDITIONAL
    ensures Printable(Op(code, [a, b]))
    ensures Formula(Op(code, [a, b]))
         == if code == "max" || code == "min" then code + "(" + (Formula(a) + ", " + Formula(b)) + ")"
            else "(" + (Formula(a) + (" " + code + " ") + Formula(b)) + ")"
  {
    assert forall o :: o in [a, b] ==> o == a || o == b;
    TwoFormulas(a, b);
    JoinedTwo(", ", Formula(a), Formula(b));
    JoinedTwo(" " + code + " ", Formula(a), Formula(b));
    hide Formulas, Joined;
  }

  lemma TwoFormulas(a: Expr, b: Expr)
    requires Printable(a) && Printable(b)
    ensures (forall o :: o in [a, b] ==> Printable(o)) && Formulas([a, b]) == [Formula(a), Formula(b)]
  {
    assert [a, b][1..] == [b] && [b][1..] == [];
    assert Formulas([b]) == [Formula(b)] + Formulas([]);
    hide Formula, Printable;
  }

  lemma JoinedTwo(sep: string, a: string, b: string)
    ensures Joined(sep, [a, b]) == a + sep + b
  {
    assert [a, b][1..] == [b];
  }

  // ----- the same as tokens

  datatype Token =
    | Num(n: int) | Word(s: string) | Open | Close | If | Then | Else | End
    | Infix(code: string) | Prefix(code: string) | Comma

  function TokenText(t: Token): string {
    match t
    case Num(n) => IntText(n)
    case Word(s) => s
    case Open => "("
    case Close => ")"
    case If => "(if "
    case Then => " then "
    case Else => " else "
    case End => " end)"
    case Infix(code) => " " + code + " "
    case Prefix(code) => code
    case Comma => ", "
  }

  function Text(ts: seq<Token>): string {
    if ts == [] then "" else TokenText(ts[0]) + Text(ts[1..])
  }

  /** The tokens of `e`, followed by `rest`. */
  function Write(e: Expr, rest: seq<Token>): seq<Token>
    requires Printable(e)
    decreases e, 1
  {
    match e
    case Lit(n) => [Num(n)] + rest
    case Name(s) => [Word(s)] + rest
    case Op(code, os) =>
      if code == "" || os == [] then rest
      else if code == CONDITIONAL then
        [If] + Write(os[0], [Then] + Write(os[1], [Else] + Write(os[2], [End] + rest)))
      else if |os| == 1 then [Prefix(code)] + Write(os[0], rest)
      else if IsCall(code) then [Prefix(code)] + ([Open] + Write(os[0], WriteLater(os[1..], Comma, rest)))
      else [Open] + Write(os[0], WriteLater(os[1..], Infix(code), rest))
  }

  /** The operands after the first one, each behind a separator, and the closing parenthesis. */
  function WriteLater(es: seq<Expr>, sep: Token, rest: seq<Token>): seq<Token>
    requires forall e :: e in es ==> Printable(e)
    decreases es, 0
  {
    if es == [] then [Close] + rest else [sep] + Write(es[0], WriteLater(es[1..], sep, rest))
  }

  /** The operands after the first one as text, each behind a separator. */
  function LaterText(sep: string, parts: seq<string>): string {
    if parts == [] then "" else sep + Joined(sep, parts)
  }

  lemma JoinedIsFirstAndLater(sep: string, parts: seq<string>)
    requires parts != []
    ensures Joined(sep, parts) == parts[0] + LaterText(sep, parts[1..])
  {
    if |parts| == 1 { assert parts[1..] == []; }
  }

  lemma TextOfCons(t: Token, ts: seq<Token>)
    ensures Text([t] + ts) == TokenText(t) + Text(ts)
  {
    assert ([t] + ts)[1..] == ts;
  }

  lemma Enclose(a: string, b: string, c: string, d: string, e: string)
    ensures a + (b + (c + (d + e))) == (a + b + c + d) + e
  {
  }

  /** The text of the tokens is the formula that is shown. */
  lemma {:induction false} WriteIsFormula(e: Expr, rest: seq<Token>)
    requires Printable(e)
    ensures Text(Write(e, rest)) == Formula(e) + Text(rest)
    decreases e, 1
  {
    match e
    case Lit(n) => TextOfCons(Num(n), rest);
    case Name(s) => TextOfCons(Word(s), rest);
    case Op(code, os) =>
      if code != "" && os != [] {
        if code == CONDITIONAL {
          WriteConditionalIsFormula(e, rest);
        } else if |os| == 1 {
          WriteIsFormula(os[0], rest);
          TextOfCons(Prefix(code), Write(os[0], rest));
          assert code + (Formula(os[0]) + Text(rest)) == (code + Formula(os[0])) + Text(rest);
        } else {
          WriteOperandsIsFormula(e, rest);
        }
      }
  }

  lemma {:induction false} WriteConditionalIsFormula(e: Expr, rest: seq<Token>)
    requires Printable(e) && e.Op? && e.code == CONDITIONAL && e.operands != []
    ensures Text(Write(e, rest)) == Formula(e) + Text(rest)
    decreases e, 0
  {
    var os := e.operands;
    var w2 := Write(os[2], [End] + rest);
    var w1 := Write(os[1], [Else] + w2);
    WriteIsFormula(os[2], [End] + rest);
    WriteIsFormula(os[1], [Else] + w2);
    WriteIsFormula(os[0], [Then] + w1);
    var (f0, f1, f2, t) := (Formula(os[0]), Formula(os[1]), Formula(os[2]), Text(rest));
    assert Write(e, rest) == [If] + Write(os[0], [Then] + w1);
    assert Formula(e) == "(if " + f0 + " then " + f1 + " else " + f2 + " end)";
    hide Write, Formula;
    TextOfCons(If, Write(os[0], [Then] + w1));
    TextOfCons(Then, w1);
    TextOfCons(Else, w2);
    TextOfCons(End, rest);
    hide Text;
    Assoc4(" else ", f2, " end)", t);
    Assoc4(" then ", f1, " else " + f2 + " end)", t);
    Assoc4("(if ", f0, " then " + f1 + (" else " + f2 + " end)"), t);
    Flatten("(if ", f0, " then ", f1, " else ", f2, " end)");
  }

  lemma Flatten(a: string, b: string, c: string, d: string, e: string, f: string, g: string)
    ensures a + b + (c + d + (e + f + g)) == a + b + c + d + e + f + g
  {
  }

  lemma {:induction false} WriteOperandsIsFormula(e: Expr, rest: seq<Token>)
    requires Printable(e) && e.Op? && e.code != CONDITIONAL && e.code != "" && |e.operands| > 1
    ensures Text(Write(e, rest)) == Formula(e) + Text(rest)
    decreases e, 0
  {
    var (code, os) := (e.code, e.operands);
    var sep := if IsCall(code) then Comma else Infix(code);
    var ts := Write(os[0], WriteLater(os[1..], sep, rest));
    var joined := Joined(TokenText(sep), Formulas(os));
    WriteJoinedIsFormula(os, sep, rest);
    TextOfCons(Open, ts);
    if IsCall(code) {
      TextOfCons(Prefix(code), [Open] + ts);
      assert Write(e, rest) == [Prefix(code)] + ([Open] + ts);
      assert Formula(e) == code + "(" + joined + ")";
      hide *;
      Enclose(code, "(", joined, ")", Text(rest));
    } else {
      assert Write(e, rest) == [Open] + ts;
      assert Formula(e) == "(" + joined + ")";
      hide *;
      Assoc4("(", joined, ")", Text(rest));
    }
  }

  lemma {:induction false} WriteJoinedIsFormula(os: seq<Expr>, sep: Token, rest: seq<Token>)
    requires os != [] && forall e :: e in os ==> Printable(e)
    ensures Text(Write(os[0], WriteLater(os[1..], sep, rest)))
         == Joined(TokenText(sep), Formulas(os)) + (")" + Text(rest))
    decreases os, 1
  {
    assert Formulas(os)[1..] == Formulas(os[1..]);
    assert Formulas(os)[0] == Formula(os[0]);
    hide *;
    var later := WriteLater(os[1..], sep, rest);
    WriteIsFormula(os[0], later);
    WriteLaterIsFormula(os[1..], sep, rest);
    JoinedIsFirstAndLater(TokenText(sep), Formulas(os));
    Assoc(Formula(os[0]), LaterText(TokenText(sep), Formulas(os[1..])), ")" + Text(rest));
  }

  lemma {:induction false} WriteLaterIsFormula(es: seq<Expr>, sep: Token, rest: seq<Token>)
    requires forall e :: e in es ==> Printable(e)
    ensures Text(WriteLater(es, sep, rest)) == LaterText(TokenText(sep), Formulas(es)) + (")" + Text(rest))
    decreases es, 0
  {
    if es == [] {
      TextOfCons(Close, rest);
    } else {
      hide *;
      LaterFormulas(es, TokenText(sep));
      LaterTokens(es, sep, rest);
      var later := WriteLater(es[1..], sep, rest);
      WriteIsFormula(es[0], later);
      WriteLaterIsFormula(es[1..], sep, rest);
      TextOfCons(sep, Write(es[0], later));
      var (f0, fs) := (Formula(es[0]), LaterText(TokenText(sep), Formulas(es[1..])));
      AssocLater(TokenText(sep), f0, fs, ")" + Text(rest));
    }
  }

  lemma AssocLater(a: string, b: string, c: string, d: string)
    ensures a + (b + (c + d)) == (a + (b + c)) + d
  {
  }

  lemma LaterTokens(es: seq<Expr>, sep: Token, rest: seq<Token>)
    requires es != [] && forall e :: e in es ==> Printable(e)
    ensures WriteLater(es, sep, rest) == [sep] + Write(es[0], WriteLater(es[1..], sep, rest))
  {
  }

  lemma LaterFormulas(es: seq<Expr>, sep: string)
    requires es != [] && forall e :: e in es ==> Printable(e)
    ensures LaterText(sep, Formulas(es)) == sep + (Formula(es[0]) + LaterText(sep, Formulas(es[1..])))
  {
    assert Formulas(es)[1..] == Formulas(es[1..]);
    JoinedIsFirstAndLater(sep, Formulas(es));
    hide Formula, Printable;
  }

  // ----- reading tokens back

  datatype Parsed = Fail | Got(e: Expr, rest: seq<Token>)
  datatype ParsedList = FailList | GotList(es: seq<Expr>, rest: seq<Token>)

  /** Reads one expression; operators carry their code, and conditionals have their own form. */
  function Parse(ts: seq<Token>): (r: Parsed)
    ensures r.Got? ==> |r.rest| < |ts|
    decreases |ts|, 1
  {
    if ts == [] then Fail
    else
      match ts[0]
      case Num(n) => Got(Lit(n), ts[1..])
      case Word(s) => Got(Name(s), ts[1..])
      case If => ParseConditional(ts[1..])
      case Prefix(code) =>
        if code == "" || code == CONDITIONAL then Fail else ParsePrefixed(code, ts[1..])
      case Open => ParseOperands("", ts[1..], None)
      case _ => Fail
  }

  /** What follows a prefix: the operands of a call, or else a single operand. */
  function ParsePrefixed(code: string, ts: seq<Token>): (r: Parsed)
    ensures r.Got? ==> |r.rest| < |ts|
    decreases |ts|, 2
  {
    var call := if IsCall(code) && ts != [] && ts[0] == Open then ParseOperands(code, ts[1..], Some(Comma)) else Fail;
    if call.Got? then call
    else
      match Parse(ts)
      case Fail => Fail
      case Got(e, rest) => Got(Op(code, [e]), rest)
  }

  function ParseConditional(ts: seq<Token>): (r: Parsed)
    ensures r.Got? ==> |r.rest| < |ts|
    decreases |ts|, 2
  {
    match Parse(ts)
    case Fail => Fail
    case Got(a, ts1) =>
      if ts1 == [] || ts1[0] != Then then Fail
      else
        match Parse(ts1[1..])
        case Fail => Fail
        case Got(b, ts2) =>
          if ts2 == [] || ts2[0] != Else then Fail
          else
            match Parse(ts2[1..])
            case Fail => Fail
            case Got(c, ts3) =>
              if ts3 == [] || ts3[0] != End then Fail else Got(Op(CONDITIONAL, [a, b, c]), ts3[1..])
  }

  /** Two or more operands up to a closing parenthesis; without a given separator, the first infix operator is it. */
  function ParseOperands(code: string, ts: seq<Token>, given: Option<Token>): (r: Parsed)
    ensures r.Got? ==> |r.rest| < |ts|
    decreases |ts|, 2
  {
    match Parse(ts)
    case Fail => Fail
    case Got(first, ts1) =>
      if ts1 == [] then Fail
      else
        var sep := if given.Some? then given.value else ts1[0];
        var op := if given.Some? then code else if sep.Infix? then sep.code else "";
        if ts1[0] != sep || op == "" || op == CONDITIONAL || (given.None? && IsCall(op)) then Fail
        else
          match ParseLater(ts1, sep)
          case FailList => Fail
          case GotList(es, rest) => Got(Op(op, [first] + es), rest)
  }

  /** Operands behind separators, and the closing parenthesis. */
  function ParseLater(ts: seq<Token>, sep: Token): (r: ParsedList)
    ensures r.GotList? ==> |r.rest| < |ts|
    decreases |ts|, 2
  {
    if ts == [] then FailList
    else if ts[0] == Close && sep != Close then GotList([], ts[1..])
    else if ts[0] != sep then FailList
    else
      match Parse(ts[1..])
      case Fail => FailList
      case Got(e, ts1) =>
        match ParseLater(ts1, sep)
        case FailList => FailList
        case GotList(es, rest) => GotList([e] + es, rest)
  }

  /** What can be read back: operators have a code and operands, and conditionals have exactly three. */
  predicate WellFormed(e: Expr) {
    e.Op? ==>
      && e.code != "" && e.operands != []
      && (e.code == CONDITIONAL ==> |e.operands| == 3)
      && forall o :: o in e.operands ==> WellFormed(o)
  }

  lemma {:induction false} WellFormedIsPrintable(e: Expr)
    requires WellFormed(e)
    ensures Printable(e)
  {
    if e.Op? {
      forall o | o in e.operands ensures Printable(o) { WellFormedIsPrintable(o); }
    }
  }

  lemma AllPrintable(es: seq<Expr>)
    requires forall e :: e in es ==> WellFormed(e)
    ensures forall e :: e in es ==> Printable(e)
  {
    forall e | e in es ensures Printable(e) { WellFormedIsPrintable(e); }
  }

  // ----- printing and reading are inverse

  /** What was printed is read back, whatever follows it. */
  lemma {:induction false} ParseWritten(e: Expr, rest: seq<Token>)
    requires WellFormed(e)
    ensures Printable(e) && Parse(Write(e, rest)) == Got(e, rest)
    decreases e, 1
  {
    WellFormedIsPrintable(e);
    if e.Op? {
      var os := e.operands;
      AllPrintable(os);
      if e.code == CONDITIONAL {
        ParseWrittenConditional(e, rest);
      } else if |os| == 1 {
        assert e == Op(e.code, [os[0]]);
        ParseWritten(os[0], rest);
        NoCallFollows(e.code, os[0], rest);
        WriteOne(e.code, os[0], rest);
        DropFront([Prefix(e.code)], Write(os[0], rest));
        hide WellFormed, Printable, Write, ParseOperands;
      } else {
        ParseWrittenOperands(e, rest);
      }
    }
  }

  /** A single operand cannot be taken for the operands of a call: it has no commas. */
  lemma {:induction false} NoCallFollows(code: string, e: Expr, rest: seq<Token>)
    requires WellFormed(e) && Printable(e)
    ensures var ts := Write(e, rest); ts != [] && (ts[0] == Open ==> ParseOperands(code, ts[1..], Some(Comma)) == Fail)
    decreases e, 0
  {
    if e.Op? && e.code != CONDITIONAL && |e.operands| > 1 && !IsCall(e.code) {
      var (f, later) := (e.operands[0], WriteLater(e.operands[1..], Infix(e.code), rest));
      AllPrintable(e.operands);
      ParseWritten(f, later);
      WriteMany(e, rest);
      assert later[0] == Infix(e.code);
      DropFront([Open], Write(f, later));
      hide WellFormed, Printable, Write, WriteLater, Parse, ParseLater;
    }
  }

  lemma {:induction false} ParseWrittenConditional(e: Expr, rest: seq<Token>)
    requires WellFormed(e) && Printable(e) && e.Op? && e.code == CONDITIONAL
    ensures Parse(Write(e, rest)) == Got(e, rest)
    decreases e, 0
  {
    var os := e.operands;
    AllPrintable(os);
    assert |os| == 3 && e == Op(CONDITIONAL, [os[0], os[1], os[2]]) && forall o :: o in os ==> WellFormed(o);
    hide *;
    var w2 := Write(os[2], [End] + rest);
    var w1 := Write(os[1], [Else] + w2);
    var ts := Write(os[0], [Then] + w1);
    WriteThree(os[0], os[1], os[2], rest);
    ParseWritten(os[0], [Then] + w1);
    ParseWritten(os[1], [Else] + w2);
    ParseWritten(os[2], [End] + rest);
    ParseConditionalIs(ts, os[0], w1, os[1], w2, os[2], rest);
    ParseOfIf(ts);
  }

  lemma ParseOfIf(ts: seq<Token>)
    ensures Parse([If] + ts) == ParseConditional(ts)
  {
    DropFront([If], ts);
    hide ParseConditional;
  }

  lemma ParseConditionalIs(ts: seq<Token>, a: Expr, ts1: seq<Token>, b: Expr, ts2: seq<Token>, c: Expr,
                            rest: seq<Token>)
    requires Parse(ts) == Got(a, [Then] + ts1) && Parse(ts1) == Got(b, [Else] + ts2)
    requires Parse(ts2) == Got(c, [End] + rest)
    ensures ParseConditional(ts) == Got(Op(CONDITIONAL, [a, b, c]), rest)
  {
    DropFront([Then], ts1);
    DropFront([Else], ts2);
    DropFront([End], rest);
    hide Parse;
  }

  lemma {:induction false} ParseWrittenOperands(e: Expr, rest: seq<Token>)
    requires WellFormed(e) && Printable(e) && e.Op? && e.code != CONDITIONAL && |e.operands| > 1
    ensures Parse(Write(e, rest)) == Got(e, rest)
    decreases e, 0
  {
    var (code, os) := (e.code, e.operands);
    var sep := if IsCall(code) then Comma else Infix(code);
    var later := WriteLater(os[1..], sep, rest);
    AllPrintable(os);
    assert code != "" && forall o :: o in os ==> WellFormed(o);
    assert later == [sep] + later[1..];
    WriteMany(e, rest);
    hide *;
    ParseWritten(os[0], later);
    ParseWrittenLater(os[1..], sep, rest);
    var ts := Write(os[0], later);
    assert os == [os[0]] + os[1..] && e == Op(code, [os[0]] + os[1..]);
    if IsCall(code) {
      ParseOperandsIs(code, ts, Some(Comma), os[0], later, sep, os[1..], rest);
      ParseOfCall(code, ts);
    } else {
      ParseOfParentheses(ts);
      ParseOperandsIs("", ts, None, os[0], later, sep, os[1..], rest);
    }
  }

  lemma ParseOfCall(code: string, ts: seq<Token>)
    requires IsCall(code) && code != "" && code != CONDITIONAL && ParseOperands(code, ts, Some(Comma)).Got?
    ensures Parse([Prefix(code)] + ([Open] + ts)) == ParseOperands(code, ts, Some(Comma))
  {
    DropFront([Prefix(code)], [Open] + ts);
    DropFront([Open], ts);
    hide IsCall, ParseOperands, ParseConditional;
  }

  lemma ParseOfParentheses(ts: seq<Token>)
    ensures Parse([Open] + ts) == ParseOperands("", ts, None)
  {
    DropFront([Open], ts);
    hide ParseOperands, ParseConditional;
  }

  /** Operands are read as the first one, and those behind separators. */
  lemma ParseOperandsIs(code: string, ts: seq<Token>, given: Option<Token>, first: Expr, later: seq<Token>, sep: Token,
                        es: seq<Expr>, rest: seq<Token>)
    requires Parse(ts) == Got(first, later) && later != [] && later[0] == sep
    requires ParseLater(later, sep) == GotList(es, rest)
    requires if given.Some? then given.value == sep else sep.Infix? && !IsCall(sep.code)
    requires var op := if given.Some? then code else sep.code; op != "" && op != CONDITIONAL
    ensures ParseOperands(code, ts, given) == Got(Op(if given.Some? then code else sep.code, [first] + es), rest)
  {
    hide Parse, ParseLater, IsCall;
  }

  lemma {:induction false} ParseWrittenLater(es: seq<Expr>, sep: Token, rest: seq<Token>)
    requires forall e :: e in es ==> WellFormed(e)
    requires sep == Comma || sep.Infix?
    ensures (forall e :: e in es ==> Printable(e)) && ParseLater(WriteLater(es, sep, rest), sep) == GotList(es, rest)
    decreases es, 0
  {
    AllPrintable(es);
    if es != [] {
      ParseWritten(es[0], WriteLater(es[1..], sep, rest));
      ParseWrittenLater(es[1..], sep, rest);
      assert es == [es[0]] + es[1..];
    }
  }

  /** Whatever is read is well formed, and is what would be printed. */
  lemma {:induction false} WriteParsed(ts: seq<Token>)
    requires Parse(ts).Got?
    ensures WellFormed(Parse(ts).e) && Printable(Parse(ts).e) && ts == Write(Parse(ts).e, Parse(ts).rest)
    decreases |ts|, 1
  {
    assert ts == [ts[0]] + ts[1..];
    match ts[0]
    case Num(n) =>
    case Word(s) =>
    case If => WriteConditional(ts[1..]);
    case Prefix(code) => WritePrefixed(code, ts[1..]);
    case Open =>
      WriteOperands("", ts[1..], None);
      hide WellFormed, Printable, Write;
      WriteMany(Parse(ts).e, Parse(ts).rest);
  }

  lemma {:induction false} WritePrefixed(code: string, ts: seq<Token>)
    requires ParsePrefixed(code, ts).Got? && code != "" && code != CONDITIONAL
    ensures var (e, rest) := (ParsePrefixed(code, ts).e, ParsePrefixed(code, ts).rest);
      WellFormed(e) && Printable(e) && [Prefix(code)] + ts == Write(e, rest)
    decreases |ts|, 2
  {
    hide WellFormed, Printable, Write, Parse, ParseOperands;
    var (e, rest) := (ParsePrefixed(code, ts).e, ParsePrefixed(code, ts).rest);
    if IsCall(code) && ts != [] && ts[0] == Open && ParseOperands(code, ts[1..], Some(Comma)).Got? {
      assert ts == [Open] + ts[1..];
      WriteOperands(code, ts[1..], Some(Comma));
      WriteMany(e, rest);
    } else {
      WriteParsed(ts);
      var p := Parse(ts);
      WriteOne(code, p.e, p.rest);
    }
  }

  lemma {:induction false} WriteConditional(ts: seq<Token>)
    requires ParseConditional(ts).Got?
    ensures var (e, rest) := (ParseConditional(ts).e, ParseConditional(ts).rest);
      && WellFormed(e) && Printable(e) && e.Op? && e.code == CONDITIONAL && [If] + ts == Write(e, rest)
    decreases |ts|, 2
  {
    hide Write, WellFormed, Printable;
    var p0 := Parse(ts);
    var p1 := Parse(p0.rest[1..]);
    var p2 := Parse(p1.rest[1..]);
    WriteParsed(ts);
    WriteParsed(p0.rest[1..]);
    WriteParsed(p1.rest[1..]);
    hide Parse;
    assert p0.rest == [Then] + p0.rest[1..] && p1.rest == [Else] + p1.rest[1..] && p2.rest == [End] + p2.rest[1..];
    WriteThree(p0.e, p1.e, p2.e, p2.rest[1..]);
  }

  lemma WriteThree(a: Expr, b: Expr, c: Expr, rest: seq<Token>)
    requires WellFormed(a) && WellFormed(b) && WellFormed(c) && Printable(a) && Printable(b) && Printable(c)
    ensures var e := Op(CONDITIONAL, [a, b, c]);
      && WellFormed(e) && Printable(e)
      && Write(e, rest) == [If] + Write(a, [Then] + Write(b, [Else] + Write(c, [End] + rest)))
  {
    assert forall o :: o in [a, b, c] ==> o == a || o == b || o == c;
  }

  lemma WriteMany(e: Expr, rest: seq<Token>)
    requires e.Op? && e.code != CONDITIONAL && |e.operands| > 1 && WellFormed(e) && Printable(e)
    ensures var (os, call) := (e.operands, IsCall(e.code));
      && (forall o :: o in os ==> Printable(o))
      && var ts := Write(os[0], WriteLater(os[1..], if call then Comma else Infix(e.code), rest));
         Write(e, rest) == if call then [Prefix(e.code)] + ([Open] + ts) else [Open] + ts
  {
    var (os, call) := (e.operands, IsCall(e.code));
    var ts := Write(os[0], WriteLater(os[1..], if call then Comma else Infix(e.code), rest));
    assert [Prefix(e.code)] + ([Open] + ts) == [Prefix(e.code), Open] + ts;
  }

  lemma WriteOne(code: string, e: Expr, rest: seq<Token>)
    requires code != "" && code != CONDITIONAL && WellFormed(e) && Printable(e)
    ensures var u := Op(code, [e]);
      WellFormed(u) && Printable(u) && Write(u, rest) == [Prefix(code)] + Write(e, rest)
  {
    assert forall o :: o in [e] ==> o == e;
  }

  lemma {:induction false} WriteOperands(code: string, ts: seq<Token>, given: Option<Token>)
    requires ParseOperands(code, ts, given).Got?
    requires given == None || (given == Some(Comma) && IsCall(code))
    ensures var (e, rest) := (ParseOperands(code, ts, given).e, ParseOperands(code, ts, given).rest);
      && WellFormed(e) && Printable(e) && e.Op? && |e.operands| > 1 && e.code != CONDITIONAL
      && (if given.Some? then e.code == code else !IsCall(e.code))
      && (forall o :: o in e.operands ==> Printable(o))
      && ts == Write(e.operands[0], WriteLater(e.operands[1..], if given.Some? then Comma else Infix(e.code), rest))
    decreases |ts|, 2
  {
    var p := Parse(ts);
    WriteParsed(ts);
    WriteLaterParsed(p.rest, p.rest[0]);
    var l := ParseLater(p.rest, p.rest[0]);
    hide Parse, ParseLater;
    var os := [p.e] + l.es;
    assert os[1..] == l.es;
    AllPrintable(os);
  }

  lemma {:induction false} WriteLaterParsed(ts: seq<Token>, sep: Token)
    requires ParseLater(ts, sep).GotList? && sep != Close
    ensures var (es, rest) := (ParseLater(ts, sep).es, ParseLater(ts, sep).rest);
      && (forall e :: e in es ==> WellFormed(e) && Printable(e))
      && ts == WriteLater(es, sep, rest) && (ts[0] != Close ==> es != [])
    decreases |ts|, 2
  {
    assert ts == [ts[0]] + ts[1..];
    if ts[0] != Close {
      var p := Parse(ts[1..]);
      WriteParsed(ts[1..]);
      WriteLaterParsed(p.rest, sep);
      assert ([p.e] + ParseLater(p.rest, sep).es)[1..] == ParseLater(p.rest, sep).es;
    }
  }

  /** A printed expression can be read back exactly when it is well formed. */
  lemma ReadsBackIff(e: Expr)
    requires Printable(e)
    ensures WellFormed(e) <==> forall rest :: Parse(Write(e, rest)) == Got(e, rest)
  {
    if WellFormed(e) {
      forall rest ensures Parse(Write(e, rest)) == Got(e, rest) { ParseWritten(e, rest); }
    } else if Parse(Write(e, [])) == Got(e, []) {
      WriteParsed(Write(e, []));
    }
  }

  ghost predicate SameTokens(e: Expr, f: Expr)
    requires Printable(e) && Printable(f)
  {
    forall rest :: Write(e, rest) == Write(f, rest)
  }

  /** What is not well formed is printed like something else, so that no reader can tell them apart. */
  lemma {:induction false} NotToldApart(e: Expr) returns (f: Expr)
    requires Printable(e) && !WellFormed(e)
    ensures f != e && Printable(f) && SameTokens(e, f)
  {
    var (code, os) := (e.code, e.operands);
    if code == "" || os == [] {
      f := if e == Op("", []) then Op("", [Lit(0)]) else Op("", []);
    } else if code == CONDITIONAL && |os| > 3 {
      f := Op(code, os[..3]);
      assert forall o :: o in os[..3] ==> o in os;
      assert os[..3][..3] == os[..3];
    } else {
      assert Shown(code, os) == os;
      var i :| 0 <= i < |os| && !WellFormed(os[i]);
      var o := NotToldApart(os[i]);
      f := Op(code, os[i := o]);
      assert forall p :: p in os[i := o] ==> p == o || p in os;
      assert os[i := o][..|os|] == os[i := o] && os[i := o][i] == o;
      forall rest ensures Write(e, rest) == Write(f, rest) { WriteWithOther(code, os, i, o, rest); }
    }
  }

  lemma WriteWithOther(code: string, os: seq<Expr>, i: nat, o: Expr, rest: seq<Token>)
    requires i < |os| && Printable(Op(code, os)) && Printable(Op(code, os[i := o])) && code != ""
    requires code == CONDITIONAL ==> |os| == 3
    requires Printable(os[i]) && Printable(o) && SameTokens(os[i], o)
    ensures Write(Op(code, os), rest) == Write(Op(code, os[i := o]), rest)
  {
    var all := os[i := o];
    assert Shown(code, os) == os && Shown(code, all) == all;
    if code != CONDITIONAL && |os| > 1 {
      var sep := if IsCall(code) then Comma else Infix(code);
      if i == 0 {
        assert all[1..] == os[1..];
      } else {
        assert all[1..] == os[1..][i - 1 := o];
        WriteLaterWithOther(os[1..], i - 1, o, sep, rest);
      }
    }
  }

  lemma {:induction false} WriteLaterWithOther(es: seq<Expr>, i: nat, o: Expr, sep: Token, rest: seq<Token>)
    requires i < |es| && (forall e :: e in es ==> Printable(e)) && Printable(o) && SameTokens(es[i], o)
    ensures (forall e :: e in es[i := o] ==> Printable(e))
            && WriteLater(es[i := o], sep, rest) == WriteLater(es, sep, rest)
  {
    if i == 0 {
      assert es[i := o][1..] == es[1..];
    } else {
      assert es[i := o][1..] == es[1..][i - 1 := o];
      WriteLaterWithOther(es[1..], i - 1, o, sep, rest);
    }
  }

  // ----- the ranges of record components

  /** What names and operators mean. */
  datatype Meaning = Meaning(name: string -> int, apply: (string, seq<int>) -> int)

  function Eval(e: Expr, m: Meaning): int
    requires WellFormed(e)
    decreases e, 1
  {
    match e
    case Lit(n) => n
    case Name(s) => m.name(s)
    case Op(code, os) =>
      if code == CONDITIONAL then
        if Eval(os[0], m) != 0 then Eval(os[1], m) else Eval(os[2], m)
      else m.apply(code, EvalAll(os, m))
  }

  function EvalAll(es: seq<Expr>, m: Meaning): seq<int>
    requires forall e :: e in es ==> WellFormed(e)
    decreases es, 0
  {
    if es == [] then [] else [Eval(es[0], m)] + EvalAll(es[1..], m)
  }

  /** The value of shown tokens: terms added and subtracted from left to right, starting from `acc`. */
  function Value(ts: seq<Token>, m: Meaning): Option<int> {
    match Parse(ts)
    case Fail => None
    case Got(e, rest) =>
      WriteParsed(ts);
      Sum(Eval(e, m), rest, m)
  }

  function Sum(acc: int, ts: seq<Token>, m: Meaning): Option<int>
    decreases |ts|
  {
    if ts == [] then Some(acc)
    else if ts[0] != Infix("+") && ts[0] != Infix("-") then None
    else
      match Parse(ts[1..])
      case Fail => None
      case Got(e, rest) =>
        WriteParsed(ts[1..]);
        Sum(if ts[0] == Infix("+") then acc + Eval(e, m) else acc - Eval(e, m), rest, m)
  }

  /** Names are never empty: an empty text would pass for a missing one. */
  predicate Named(e: Expr) {
    match e
    case Lit(_) => true
    case Name(s) => s != ""
    case Op(_, os) => forall o :: o in os ==> Named(o)
  }

  /** A text or formula of the compiler's output; text that is a number counts as one. */
  function ParseValue(v: Expr, asInt: string -> Option<int>): Expr {
    if v.Name? && asInt(v.s).Some? then Lit(asInt(v.s).value) else v
  }

  /** If texts that are numbers mean these, a value means what it is shown as; such texts are shown as numbers. */
  lemma ValueKeepsMeaning(v: Expr, asInt: string -> Option<int>, m: Meaning)
    requires WellFormed(v) && forall s :: asInt(s).Some? ==> m.name(s) == asInt(s).value
    ensures WellFormed(ParseValue(v, asInt)) && Eval(ParseValue(v, asInt), m) == Eval(v, m)
    ensures ParseValue(v, asInt).Name? ==> asInt(ParseValue(v, asInt).s) == None
  {
  }

  /** The text of the last bit of a component. */
  function LastBit(first: string, size: string): string {
    (if first != "" && first != "0" then size + " + " + first else size) + " - 1"
  }

  /** The same as tokens. */
  function LastBitTokens(first: Expr, size: Expr): seq<Token>
    requires Printable(first) && Printable(size)
  {
    Write(size, if first == Lit(0) then [Infix("-"), Num(1)]
                else [Infix("+")] + Write(first, [Infix("-"), Num(1)]))
  }

  lemma {:induction false} FormulaIsNotEmpty(e: Expr)
    requires Printable(e) && WellFormed(e) && Named(e)
    ensures Formula(e) != ""
  {
    if e.Op? && |e.operands| == 1 { assert e.code + Formulas(e.operands)[0] != ""; }
  }

  lemma {:induction false} DigitsAreNotZero(n: nat)
    ensures Digits(n) != "" && (Digits(n) == "0" <==> n == 0)
  {
    if n >= 10 { DigitsAreNotZero(n / 10); }
  }

  /** Among the values of a first bit, only the number 0 is shown as "0". */
  lemma OnlyZeroIsZero(e: Expr, asInt: string -> Option<int>)
    requires Printable(e) && WellFormed(e) && Named(e) && asInt("0") == Some(0)
    ensures Printable(ParseValue(e, asInt))
    ensures Formula(ParseValue(e, asInt)) == "0" <==> ParseValue(e, asInt) == Lit(0)
  {
    var v := ParseValue(e, asInt);
    match v
    case Lit(n) =>
      DigitsAreNotZero(if n < 0 then -n else n);
    case Name(_) =>
    case Op(code, os) =>
      if |os| == 1 {
        FormulaIsNotEmpty(os[0]);
        assert Formulas(os)[0] == Formula(os[0]);
        assert |code + Formulas(os)[0]| > 1;
      }
  }

  /**
   The range shown for a component spans exactly its size: the text of the last bit, read as
   the tokens it consists of, is worth the first bit plus the size less one.
   */
  lemma RangeSpansSize(firstBit: Expr, size: Expr, asInt: string -> Option<int>, m: Meaning)
    requires WellFormed(firstBit) && WellFormed(size) && Named(firstBit) && asInt("0") == Some(0)
    ensures var (first, all) := (ParseValue(firstBit, asInt), ParseValue(size, asInt));
      && Printable(first) && Printable(all) && WellFormed(first) && WellFormed(all)
      && Text(LastBitTokens(first, all)) == LastBit(Formula(first), Formula(all))
      && Value(Write(first, []), m) == Some(Eval(first, m))
      && Value(LastBitTokens(first, all), m) == Some(Eval(first, m) + Eval(all, m) - 1)
  {
    var (first, all) := (ParseValue(firstBit, asInt), ParseValue(size, asInt));
    WellFormedIsPrintable(firstBit);
    WellFormedIsPrintable(size);
    ParseWritten(first, []);
    hide Write, Formula, Eval, Parse, Text;
    LastBitText(firstBit, all, asInt);
    LastBitValue(first, all, m);
  }

  lemma LastBitText(firstBit: Expr, size: Expr, asInt: string -> Option<int>)
    requires WellFormed(firstBit) && Named(firstBit) && asInt("0") == Some(0) && Printable(firstBit) && Printable(size)
    ensures var first := ParseValue(firstBit, asInt);
      Text(LastBitTokens(first, size)) == LastBit(Formula(first), Formula(size))
  {
    var first := ParseValue(firstBit, asInt);
    var end := [Infix("-"), Num(1)];
    hide Formula, Write, Digits, WellFormed, Named, Printable, Text;
    OnlyZeroIsZero(firstBit, asInt);
    FirstBitIsShown(firstBit, asInt);
    TextOfLessOne();
    if first == Lit(0) {
      WriteIsFormula(size, end);
    } else {
      WriteIsFormula(first, end);
      TextOfCons(Infix("+"), Write(first, end));
      WriteIsFormula(size, [Infix("+")] + Write(first, end));
      Assoc4(Formula(size), " + ", Formula(first), " - 1");
    }
  }

  lemma TextOfLessOne()
    ensures Text([Infix("-"), Num(1)]) == " - 1"
  {
    TextOfCons(Infix("-"), [Num(1)]);
    TextOfCons(Num(1), []);
  }

  lemma FirstBitIsShown(e: Expr, asInt: string -> Option<int>)
    requires WellFormed(e) && Named(e) && Printable(e)
    ensures Formula(ParseValue(e, asInt)) != ""
  {
    if ParseValue(e, asInt) == e {
      FormulaIsNotEmpty(e);
    } else {
      var n := ParseValue(e, asInt).n;
      DigitsAreNotZero(if n < 0 then -n else n);
    }
  }

  lemma LessOne(n: int, m: Meaning)
    ensures Sum(n, [Infix("-"), Num(1)], m) == Some(n - 1)
  {
    assert [Infix("-"), Num(1)][1..] == [Num(1)] && Parse([Num(1)]) == Got(Lit(1), []);
  }

  lemma LastBitValue(first: Expr, size: Expr, m: Meaning)
    requires WellFormed(first) && WellFormed(size) && Printable(first) && Printable(size)
    ensures Value(LastBitTokens(first, size), m) == Some(Eval(first, m) + Eval(size, m) - 1)
  {
    hide *;
    var end := [Infix("-"), Num(1)];
    LastBitTokensAre(first, size, m);
    LessOne(Eval(first, m) + Eval(size, m), m);
    if first == Lit(0) {
      ValueOfWritten(size, end, m);
    } else {
      ValueOfWritten(size, [Infix("+")] + Write(first, end), m);
      SumOfWritten(Eval(size, m), first, end, m);
    }
  }

  lemma LastBitTokensAre(first: Expr, size: Expr, m: Meaning)
    requires WellFormed(first) && WellFormed(size) && Printable(first) && Printable(size)
    ensures var end := [Infix("-"), Num(1)];
      LastBitTokens(first, size) == Write(size, if first == Lit(0) then end else [Infix("+")] + Write(first, end))
    ensures first == Lit(0) ==> Eval(first, m) == 0
  {
    hide Write;
  }

  /** A printed term is read as its value, and the rest is added to it. */
  lemma ValueOfWritten(e: Expr, rest: seq<Token>, m: Meaning)
    requires WellFormed(e) && Printable(e)
    ensures Value(Write(e, rest), m) == Sum(Eval(e, m), rest, m)
  {
    ParseWritten(e, rest);
    hide Write, Parse, Eval, WellFormed, Printable;
  }

  lemma SumOfWritten(acc: int, e: Expr, rest: seq<Token>, m: Meaning)
    requires WellFormed(e) && Printable(e)
    ensures Sum(acc, [Infix("+")] + Write(e, rest), m) == Sum(acc + Eval(e, m), rest, m)
  {
    ParseWritten(e, rest);
    DropFront([Infix("+")], Write(e, rest));
    hide Write, Parse, Eval, WellFormed, Printable;
  }

  /** One component of a record representation. */
  datatype Component = Component(name: string, position: string, firstBit: Expr, size: Expr)

  function ComponentLine(indent: string, c: Component, asInt: string -> Option<int>): string
    requires Printable(c.firstBit) && Printable(c.size)
  {
    var first := Formula(ParseValue(c.firstBit, asInt));
    indent + "   " + c.name + " at " + c.position + " range " + first + " .. "
    + LastBit(first, Formula(ParseValue(c.size, asInt))) + ";\n"
  }

  function ComponentLines(indent: string, cs: seq<Component>, asInt: string -> Option<int>): string
    requires forall c :: c in cs ==> Printable(c.firstBit) && Printable(c.size)
  {
    if cs == [] then "" else ComponentLines(indent, cs[..|cs| - 1], asInt) + ComponentLine(indent, cs[|cs| - 1], asInt)
  }

  /** The line for one component. */
  method ParseComponent(indent: string, c: Component, asInt: string -> Option<int>) returns (line: string)
    requires Printable(c.firstBit) && Printable(c.size)
    ensures line == ComponentLine(indent, c, asInt)
  {
    var first := Formula(ParseValue(c.firstBit, asInt));
    var size := Formula(ParseValue(c.size, asInt));
    if first != "" && first != "0" { size := size + " + " + first; }
    size := size + " - 1";
    hide Formula;
    line := indent + "   " + c.name + " at " + c.position + " range " + first + " .. " + size + ";\n";
  }

  /** The lines come in the order of the components. */
  lemma {:induction false} LinesInOrder(indent: string, cs: seq<Component>, asInt: string -> Option<int>)
    returns (lines: seq<string>)
    requires forall c :: c in cs ==> Printable(c.firstBit) && Printable(c.size)
    ensures |lines| == |cs| && ComponentLines(indent, cs, asInt) == Concat(lines)
    ensures forall k :: 0 <= k < |cs| ==> lines[k] == ComponentLine(indent, cs[k], asInt)
  {
    lines := [];
    if cs == [] {
      NoLines(indent, asInt);
    } else {
      var n := |cs| - 1;
      assert cs == cs[..n] + [cs[n]];
      LastLineIs(indent, cs, asInt);
      hide *;
      var front := LinesInOrder(indent, cs[..n], asInt);
      lines := front + [ComponentLine(indent, cs[n], asInt)];
      ConcatAppend(front, ComponentLine(indent, cs[n], asInt));
    }
  }

  lemma NoLines(indent: string, asInt: string -> Option<int>)
    ensures ComponentLines(indent, [], asInt) == Concat([])
  {
  }

  lemma LastLineIs(indent: string, cs: seq<Component>, asInt: string -> Option<int>)
    requires cs != [] && forall c :: c in cs ==> Printable(c.firstBit) && Printable(c.size)
    ensures var n := |cs| - 1;
      ComponentLines(indent, cs, asInt) == ComponentLines(indent, cs[..n], asInt) + ComponentLine(indent, cs[n], asInt)
  {
    hide ComponentLine, Printable;
  }

  /**
   The line of a component: its name, its position and two texts, of which the first is read as the
   first bit, and the second as the first bit and the size less one, whatever names and operators
   mean, if texts that are numbers mean these.
   */
  lemma LineSpansSize(indent: string, c: Component, asInt: string -> Option<int>, m: Meaning)
    returns (from: seq<Token>, to: seq<Token>)
    requires WellFormed(c.firstBit) && WellFormed(c.size) && Named(c.firstBit) && asInt("0") == Some(0)
    requires forall s :: asInt(s).Some? ==> m.name(s) == asInt(s).value
    ensures Printable(c.firstBit) && Printable(c.size)
    ensures ComponentLine(indent, c, asInt)
         == indent + "   " + c.name + " at " + c.position + " range " + Text(from) + " .. " + Text(to) + ";\n"
    ensures Value(from, m) == Some(Eval(c.firstBit, m))
    ensures Value(to, m) == Some(Eval(c.firstBit, m) + Eval(c.size, m) - 1)
  {
    hide *;
    ValueKeepsMeaning(c.firstBit, asInt, m);
    ValueKeepsMeaning(c.size, asInt, m);
    WellFormedIsPrintable(c.firstBit);
    WellFormedIsPrintable(c.size);
    RangeSpansSize(c.firstBit, c.size, asInt, m);
    var (first, all) := (ParseValue(c.firstBit, asInt), ParseValue(c.size, asInt));
    from, to := Write(first, []), LastBitTokens(first, all);
    LineIs(indent, c, asInt);
    WriteIsFormula(first, []);
    NoText(Formula(first));
  }

  lemma LineIs(indent: string, c: Component, asInt: string -> Option<int>)
    requires Printable(c.firstBit) && Printable(c.size)
    ensures var (first, all) := (ParseValue(c.firstBit, asInt), ParseValue(c.size, asInt));
      && Printable(first) && Printable(all)
      && ComponentLine(indent, c, asInt) == indent + "   " + c.name + " at " + c.position + " range " + Formula(first)
         + " .. " + LastBit(Formula(first), Formula(all)) + ";\n"
  {
    hide Formula, LastBit;
  }

  lemma NoText(s: string)
    ensures s + Text([]) == s
  {
  }

  lemma NextLine(indent: string, record: seq<Component>, asInt: string -> Option<int>, i: nat)
    requires i < |record| && forall c :: c in record ==> Printable(c.firstBit) && Printable(c.size)
    ensures ComponentLines(indent, record[..i + 1], asInt)
         == ComponentLines(indent, record[..i], asInt) + ComponentLine(indent, record[i], asInt)
  {
    assert record[..i + 1][..i] == record[..i];
    hide ComponentLine, Printable;
  }

  /** The representation clause of a record, or nothing for one without components. */
  method ParseRecord(indent: string, name: string, record: seq<Component>, asInt: string -> Option<int>)
    returns (res: string)
    requires forall c :: c in record ==> Printable(c.firstBit) && Printable(c.size)
    ensures res == if record == [] then ""
                   else indent + "for " + name + " use record\n" + ComponentLines(indent, record, asInt)
                        + indent + "end record;\n"
  {
    if record == [] { return ""; }
    var header := indent + "for " + name + " use record\n";
    res := header;
    assert ComponentLines(indent, record[..0], asInt) == "";
    hide *;
    for i := 0 to |record|
      invariant res == header + ComponentLines(indent, record[..i], asInt)
    {
      var line := ParseComponent(indent, record[i], asInt);
      NextLine(indent, record, asInt, i);
      Assoc(header, ComponentLines(indent, record[..i], asInt), line);
      res := res + line;
    }
    assert record[..|record|] == record;
    res := res + indent + "end record;\n";
  }
}
