/**
 How the Microsoft C runtime splits a command line into arguments, and how the wrapper writes one.
 */
module ArgvSyntax {
  import opened Sequences

  // ----- the documented rules for reading

  predicate IsBlank(c: char) { c == ' ' || c == '\t' }

  function Slashes(n: nat): (s: string)
    ensures |s| == n
  {
    if n == 0 then "" else Slashes(n - 1) + "\\"
  }

  /** What has been read, and the text after it. */
  datatype Read = Read(arg: string, rest: string) {
    function Prepend(s: string): Read { Read(s + arg, rest) }
  }

  /**
   The argument at the start of `s`, when `k` backslashes have just been seen. Backslashes are
   literal unless a quote follows: then each pair stands for one, and an odd one makes the quote
   literal. Other quotes open and close a part in which blanks do not end the argument; two
   quotes in such a part stand for one.
   */
  function ReadArg(s: string, quoted: bool, k: nat): (r: Read)
    ensures |r.rest| <= |s|
  {
    if s == "" then Read(Slashes(k), "")
    else if s[0] == '\\' then ReadArg(s[1..], quoted, k + 1)
    else if s[0] == '"' then
      if k % 2 == 1 then ReadArg(s[1..], quoted, 0).Prepend(Slashes(k / 2) + "\"")
      else if quoted && |s| > 1 && s[1] == '"' then ReadArg(s[2..], quoted, 0).Prepend(Slashes(k / 2) + "\"")
      else ReadArg(s[1..], !quoted, 0).Prepend(Slashes(k / 2))
    else if IsBlank(s[0]) && !quoted then Read(Slashes(k), s)
    else ReadArg(s[1..], quoted, 0).Prepend(Slashes(k) + [s[0]])
  }

  /** The arguments after the program name. */
  function ReadArgs(s: string): seq<string>
    decreases |s|
  {
    if s == "" then []
    else if IsBlank(s[0]) then ReadArgs(s[1..])
    else
      var r := ReadArg(s, false, 0);
      [r.arg] + ReadArgs(r.rest)
  }

  /** The program name: quotes only protect blanks, and backslashes mean nothing. */
  function ReadProgram(s: string, quoted: bool): Read {
    if s == "" || (IsBlank(s[0]) && !quoted) then Read("", s)
    else if s[0] == '"' then ReadProgram(s[1..], !quoted)
    else ReadProgram(s[1..], quoted).Prepend([s[0]])
  }

  function ReadCommandLine(s: string): seq<string> {
    var r := ReadProgram(s, false);
    [r.arg] + ReadArgs(r.rest)
  }

  // ----- what the wrapper writes

  predicate NeedsQuote(a: string) { a == "" || ' ' in a || '"' in a }

  /** How many backslashes end the first `i` characters. */
  function Run(a: string, i: nat): (n: nat)
    requires i <= |a|
    ensures n <= i
  {
    if i > 0 && a[i - 1] == '\\' then 1 + Run(a, i - 1) else 0
  }

  /** What is written for the i-th character of a quoted argument. */
  function Piece(a: string, i: nat): string
    requires i < |a|
  {
    if a[i] == '"' then Slashes(Run(a, i)) + "\\\""
    else if a[i] == '\\' && i + 1 == |a| then "\\" + Slashes(Run(a, |a|))
    else [a[i]]
  }

  /** What is written for the characters from the i-th on. */
  function Escape(a: string, i: nat): string
    requires i <= |a|
    decreases |a| - i
  {
    if i == |a| then "" else Piece(a, i) + Escape(a, i + 1)
  }

  function Quoted(a: string): string { "\"" + Escape(a, 0) + "\"" }

  function Emit(a: string): string { (if NeedsQuote(a) then Quoted(a) else a) + " " }

  function CommandLine(args: seq<string>): string {
    if args == [] then "" else Emit(args[0]) + CommandLine(args[1..])
  }

  /**
   The rules as they are documented: before a quote, each pair of backslashes stands for one, an odd
   one makes the quote literal, and otherwise the quote opens or closes a quoted part, in which two
   quotes stand for one; before anything else backslashes are literal.
   */
  lemma DocumentedRules(n: nat, s: string, quoted: bool, c: char)
    requires c != '"' && c != '\\'
    ensures ReadArg(Slashes(2 * n + 1) + ("\"" + s), quoted, 0) == ReadArg(s, quoted, 0).Prepend(Slashes(n) + "\"")
    ensures quoted && s != "" && s[0] == '"' ==>
              ReadArg(Slashes(2 * n) + ("\"" + s), quoted, 0) == ReadArg(s[1..], true, 0).Prepend(Slashes(n) + "\"")
    ensures !(quoted && s != "" && s[0] == '"') ==>
              ReadArg(Slashes(2 * n) + ("\"" + s), quoted, 0) == ReadArg(s, !quoted, 0).Prepend(Slashes(n))
    ensures quoted || !IsBlank(c) ==>
              ReadArg(Slashes(n) + ([c] + s), quoted, 0) == ReadArg(s, quoted, 0).Prepend(Slashes(n) + [c])
    ensures IsBlank(c) ==> ReadArg(Slashes(n) + ([c] + s), false, 0) == Read(Slashes(n), [c] + s)
  {
    hide *;
    ReadSlashes(2 * n + 1, "\"" + s, quoted, 0);
    AtQuote(s, quoted, 2 * n + 1);
    ReadSlashes(2 * n, "\"" + s, quoted, 0);
    AtQuote(s, quoted, 2 * n);
    ReadSlashes(n, [c] + s, quoted, 0);
    ReadSlashes(n, [c] + s, false, 0);
    if quoted || !IsBlank(c) { ReadChar(c, s, quoted, n); }
    if IsBlank(c) { AtBlank(c, s, n); }
  }

  lemma AtQuote(s: string, quoted: bool, k: nat)
    ensures ReadArg("\"" + s, quoted, k)
         == if k % 2 == 1 then ReadArg(s, quoted, 0).Prepend(Slashes(k / 2) + "\"")
            else if quoted && s != "" && s[0] == '"' then ReadArg(s[1..], quoted, 0).Prepend(Slashes(k / 2) + "\"")
            else ReadArg(s, !quoted, 0).Prepend(Slashes(k / 2))
  {
    var q := "\"" + s;
    assert q[1..] == s && q[0] == '"' && (s != "" ==> q[1] == s[0] && q[2..] == s[1..]);
    hide Slashes, Read.Prepend;
  }

  lemma AtBlank(c: char, s: string, k: nat)
    requires IsBlank(c)
    ensures ReadArg([c] + s, false, k) == Read(Slashes(k), [c] + s)
  {
    hide Slashes;
  }

  // ----- what is written as it is

  /** An argument that shows on the command line as it is: the wrapper adds no quotes that are not needed. */
  predicate IsBare(a: string) { a != "" && forall c :: c in a ==> c != ' ' && c != '"' }

  /** Each piece is an argument as it is, or in quotes, and a space. */
  ghost predicate Pieces(args: seq<string>, pieces: seq<string>) {
    && |pieces| == |args|
    && forall k :: 0 <= k < |args| ==>
         if IsBare(args[k]) then pieces[k] == args[k] + " "
         else |pieces[k]| >= 3 && pieces[k][0] == '"' && pieces[k][|pieces[k]| - 2..] == "\" "
  }

  lemma EmitIs(a: string)
    ensures var piece := Emit(a);
      if IsBare(a) then piece == a + " "
      else |piece| >= 3 && piece[0] == '"' && piece[|piece| - 2..] == "\" "
  {
    hide Escape;
  }

  /** The command line is put together of the arguments that need no quotes as they are, and the others in quotes. */
  lemma {:induction false} CommandLineInPieces(args: seq<string>) returns (pieces: seq<string>)
    ensures Pieces(args, pieces) && CommandLine(args) == Concat(pieces)
  {
    pieces := [];
    if args != [] {
      EmitIs(args[0]);
      var rest := CommandLineInPieces(args[1..]);
      hide Emit, IsBare;
      pieces := [Emit(args[0])] + rest;
      assert pieces[1..] == rest;
    }
  }

  /** Every quote from the k-th character on stands behind an odd number of backslashes. */
  ghost predicate QuotesEscaped(t: string, k: nat) {
    forall i :: k <= i < |t| && t[i] == '"' ==> Run(t, i) % 2 == 1
  }

  lemma {:induction false} RunOfFront(t: string, x: string, i: nat)
    requires i <= |t|
    ensures Run(t + x, i) == Run(t, i)
  {
    if i > 0 { RunOfFront(t, x, i - 1); }
  }

  lemma OneMoreChar(t: string, k: nat, c: char)
    requires QuotesEscaped(t, k) && (c == '"' ==> Run(t, |t|) % 2 == 1)
    ensures QuotesEscaped(t + [c], k)
    ensures Run(t + [c], |t| + 1) == if c == '\\' then Run(t, |t|) + 1 else 0
  {
    RunOfFront(t, [c], |t|);
    forall i | k <= i < |t + [c]| && (t + [c])[i] == '"' ensures Run(t + [c], i) % 2 == 1 {
      RunOfFront(t, [c], i);
    }
  }

  lemma {:induction false} MoreSlashes(t: string, k: nat, n: nat)
    requires QuotesEscaped(t, k)
    ensures QuotesEscaped(t + Slashes(n), k) && Run(t + Slashes(n), |t| + n) == Run(t, |t|) + n
  {
    if n == 0 {
      assert t + Slashes(0) == t;
    } else {
      MoreSlashes(t, k, n - 1);
      SlashesNext(n - 1);
      hide *;
      Assoc(t, Slashes(n - 1), "\\");
      OneMoreChar(t + Slashes(n - 1), k, '\\');
    }
  }

  /** With what the i-th character adds, quotes stay escaped; backslashes at the very end are doubled. */
  lemma PieceIsEscaped(a: string, i: nat, t: string, k: nat)
    requires i < |a| && QuotesEscaped(t, k) && Run(t, |t|) == Run(a, i)
    ensures var t' := t + Piece(a, i);
      && QuotesEscaped(t', k)
      && Run(t', |t'|) == if i + 1 == |a| && a[i] == '\\' then 2 * Run(a, i + 1) else Run(a, i + 1)
  {
    RunStep(a, i);
    var piece := Piece(a, i);
    if a[i] == '"' {
      assert piece == Slashes(Run(a, i)) + "\\\"";
      hide *;
      QuotePiece(t, k, Run(a, i));
    } else if a[i] == '\\' && i + 1 == |a| {
      assert piece == "\\" + Slashes(Run(a, |a|));
      hide *;
      LastSlashPiece(t, k, Run(a, |a|));
    } else {
      hide *;
      OneMoreChar(t, k, a[i]);
    }
  }

  lemma QuotePiece(t: string, k: nat, r: nat)
    requires QuotesEscaped(t, k) && Run(t, |t|) == r
    ensures var t' := t + (Slashes(r) + "\\\""); QuotesEscaped(t', k) && Run(t', |t'|) == 0
  {
    hide *;
    MoreSlashes(t, k, r);
    OneMoreChar(t + Slashes(r), k, '\\');
    OneMoreChar(t + Slashes(r) + "\\", k, '"');
    TwoMore(t, Slashes(r), '\\', '"');
  }

  lemma TwoMore(t: string, x: string, c: char, d: char)
    ensures t + (x + [c, d]) == t + x + [c] + [d]
  {
  }

  lemma LastSlashPiece(t: string, k: nat, r: nat)
    requires QuotesEscaped(t, k) && r == Run(t, |t|) + 1
    ensures var t' := t + ("\\" + Slashes(r)); QuotesEscaped(t', k) && Run(t', |t'|) == 2 * r
  {
    hide *;
    OneMoreChar(t, k, '\\');
    MoreSlashes(t + "\\", k, r);
    Assoc(t, "\\", Slashes(r));
  }

  lemma {:induction false} EscapeIsEscaped(a: string, i: nat, t: string, k: nat)
    requires i < |a| && QuotesEscaped(t, k) && Run(t, |t|) == Run(a, i)
    ensures var t' := t + Escape(a, i); QuotesEscaped(t', k) && Run(t', |t'|) == 2 * Run(a, |a|)
    decreases |a| - i
  {
    EscapeEnds(a);
    assert Escape(a, i) == Piece(a, i) + Escape(a, i + 1);
    RunStep(a, i);
    hide *;
    PieceIsEscaped(a, i, t, k);
    Assoc(t, Piece(a, i), Escape(a, i + 1));
    if i + 1 < |a| {
      EscapeIsEscaped(a, i + 1, t + Piece(a, i), k);
    } else {
      assert t + Piece(a, i) + "" == t + Piece(a, i);
    }
  }

  /**
   In quotes, each quote of the argument stands behind an odd number of backslashes, which makes it
   literal, and the closing one behind an even number.
   */
  lemma QuotesAreEscaped(a: string)
    ensures var (q, n) := (Quoted(a), |Quoted(a)| - 1);
      && 0 < n && q[0] == '"' && q[n] == '"' && Run(q, n) % 2 == 0
      && forall i :: 0 < i < n && q[i] == '"' ==> Run(q, i) % 2 == 1
  {
    var t := "\"" + Escape(a, 0);
    assert Quoted(a) == t + "\"" && QuotesEscaped("\"", 1) && Run("\"", 1) == 0 && Run(a, 0) == 0;
    EscapeEnds(a);
    hide *;
    if a == "" {
      assert t == "\"";
    } else {
      EscapeIsEscaped(a, 0, "\"", 1);
    }
    CloseQuote(t);
  }

  lemma CloseQuote(t: string)
    requires t != "" && t[0] == '"' && QuotesEscaped(t, 1) && Run(t, |t|) % 2 == 0
    ensures var q := t + "\"";
      && q[0] == '"' && q[|t|] == '"' && Run(q, |t|) % 2 == 0
      && forall i :: 0 < i < |t| && q[i] == '"' ==> Run(q, i) % 2 == 1
  {
    RunOfFront(t, "\"", |t|);
    forall i | 0 < i < |t| && t[i] == '"' ensures Run(t + "\"", i) % 2 == 1 { RunOfFront(t, "\"", i); }
    hide Run;
  }

  // ----- reading back what was written

  lemma {:induction false} ReadSlashes(n: nat, t: string, quoted: bool, k: nat)
    ensures ReadArg(Slashes(n) + t, quoted, k) == ReadArg(t, quoted, k + n)
  {
    if n == 0 {
      assert Slashes(0) + t == t;
    } else {
      assert Slashes(n) + t == Slashes(n - 1) + ("\\" + t) && ("\\" + t)[1..] == t;
      ReadSlashes(n - 1, "\\" + t, quoted, k);
    }
  }

  lemma ReadQuoteEscape(n: nat, s: string)
    ensures ReadArg(Slashes(n) + "\\\"" + s, true, n) == ReadArg(s, true, 0).Prepend(Slashes(n) + "\"")
  {
    hide *;
    var t := ['\\'] + ("\"" + s);
    assert Slashes(n) + "\\\"" + s == Slashes(n) + t;
    ReadSlashes(n, t, true, n);
    ReadChar('\\', "\"" + s, true, 2 * n);
    ReadOddQuote(n, s);
  }

  lemma ReadOddQuote(n: nat, s: string)
    ensures ReadArg("\"" + s, true, 2 * n + 1) == ReadArg(s, true, 0).Prepend(Slashes(n) + "\"")
  {
    hide *;
    assert ("\"" + s)[1..] == s;
    ReadQuote("\"" + s, true, 2 * n + 1);
  }

  lemma ReadLastSlash(n: nat, x: string)
    ensures ReadArg("\\" + Slashes(n + 1) + "\" " + x, true, n) == Read(Slashes(n + 1), " " + x)
  {
    hide *;
    Assoc4("\\", Slashes(n + 1), "\" ", x);
    ReadChar('\\', Slashes(n + 1) + ("\" " + x), true, n);
    ReadSlashes(n + 1, "\" " + x, true, n + 1);
    ReadClosingQuote(x, n + 1);
  }

  lemma ReadChar(c: char, s: string, quoted: bool, n: nat)
    requires c != '"' && (quoted || !IsBlank(c))
    ensures ReadArg([c] + s, quoted, n)
         == if c == '\\' then ReadArg(s, quoted, n + 1) else ReadArg(s, quoted, 0).Prepend(Slashes(n) + [c])
  {
    assert ([c] + s)[1..] == s;
  }

  lemma RunStep(a: string, i: nat)
    requires i < |a|
    ensures Run(a, i + 1) == if a[i] == '\\' then Run(a, i) + 1 else 0
  {
  }

  /** Inside quotes: the rest of an escaped argument reads back, with the backslashes already seen. */
  lemma {:induction false} ReadEscaped(a: string, i: nat, x: string)
    requires i <= |a| && (i == |a| ==> Run(a, i) == 0)
    ensures ReadArg(Escape(a, i) + "\" " + x, true, Run(a, i)) == Read(Slashes(Run(a, i)) + a[i..], " " + x)
    decreases |a| - i
  {
    hide ReadArg, Escape, Run, Slashes, Piece, Settled;
    if i == |a| {
      ReadClosingQuote(x, 0);
      EscapeEnds(a);
      assert Escape(a, i) + "\" " + x == "\" " + x && Slashes(0) + a[i..] == Slashes(0);
    } else if a[i] == '\\' && i + 1 == |a| {
      EscapeLastSlash(a);
      ReadLastSlash(Run(a, i), x);
    } else {
      RunStep(a, i);
      EscapeNext(a, i, x);
      ReadEscaped(a, i + 1, x);
      ReadPiece(a, i, Escape(a, i + 1) + "\" " + x);
      SettledRest(a, i);
    }
  }

  lemma EscapeLastSlash(a: string)
    requires a != "" && a[|a| - 1] == '\\'
    ensures var (i, n) := (|a| - 1, Run(a, |a| - 1));
      && Escape(a, i) == "\\" + Slashes(n + 1)
      && Slashes(n) + a[i..] == Slashes(n + 1)
  {
    hide *;
    var i := |a| - 1;
    EscapeIsLastPiece(a);
    LastPiece(a);
    SlashesNext(Run(a, i));
    LastIsSlash(a);
  }

  lemma LastIsSlash(a: string)
    requires a != "" && a[|a| - 1] == '\\'
    ensures a[|a| - 1..] == "\\"
  {
  }

  lemma EscapeIsLastPiece(a: string)
    requires a != ""
    ensures Escape(a, |a| - 1) == Piece(a, |a| - 1)
  {
    var p := Piece(a, |a| - 1);
    assert Escape(a, |a| - 1) == p + Escape(a, |a|) && Escape(a, |a|) == "";
    hide *;
    assert p + "" == p;
  }

  lemma LastPiece(a: string)
    requires a != "" && a[|a| - 1] == '\\'
    ensures Piece(a, |a| - 1) == "\\" + Slashes(Run(a, |a| - 1) + 1)
  {
    RunStep(a, |a| - 1);
    hide Run, Slashes;
  }

  lemma SlashesNext(n: nat)
    ensures Slashes(n + 1) == Slashes(n) + "\\" && Slashes(0) == ""
  {
  }

  lemma EscapeNext(a: string, i: nat, x: string)
    requires i < |a|
    ensures Escape(a, i) + "\" " + x == Piece(a, i) + (Escape(a, i + 1) + "\" " + x)
    ensures a[i..] == [a[i]] + a[i + 1..]
  {
    var (p, e) := (Piece(a, i), Escape(a, i + 1));
    assert Escape(a, i) == p + e;
    hide *;
    assert p + e + "\" " + x == p + (e + "\" " + x);
  }

  /** What the i-th character settles: itself with the backslashes before it, or nothing yet. */
  function Settled(a: string, i: nat): string
    requires i < |a|
  {
    if a[i] == '\\' then "" else Slashes(Run(a, i)) + [a[i]]
  }

  lemma SettledRest(a: string, i: nat)
    requires i < |a|
    ensures Settled(a, i) + (Slashes(Run(a, i + 1)) + a[i + 1..]) == Slashes(Run(a, i)) + ([a[i]] + a[i + 1..])
  {
    RunStep(a, i);
    hide Run;
  }

  lemma ReadPiece(a: string, i: nat, s: string)
    requires i < |a| && (a[i] == '\\' ==> i + 1 < |a|)
    ensures ReadArg(Piece(a, i) + s, true, Run(a, i)) == ReadArg(s, true, Run(a, i + 1)).Prepend(Settled(a, i))
  {
    RunStep(a, i);
    if a[i] == '"' { ReadQuoteEscape(Run(a, i), s); } else { ReadChar(a[i], s, true, Run(a, i)); }
    hide ReadArg, Run;
    assert ReadArg(s, true, Run(a, i + 1)).arg == "" + ReadArg(s, true, Run(a, i + 1)).arg;
  }

  lemma ReadClosingQuote(x: string, n: nat)
    ensures ReadArg("\" " + x, true, 2 * n) == Read(Slashes(n), " " + x)
  {
    hide *;
    ReadEvenQuote(n, x);
    ReadBlank(x);
  }

  lemma ReadEvenQuote(n: nat, x: string)
    ensures ReadArg("\" " + x, true, 2 * n) == ReadArg(" " + x, false, 0).Prepend(Slashes(n))
  {
    hide *;
    var s := "\" " + x;
    assert s[1..] == " " + x && s[0] == '"' && s[1] == ' ';
    ReadQuote(s, true, 2 * n);
  }

  /** What a quote means behind `k` backslashes. */
  lemma ReadQuote(s: string, quoted: bool, k: nat)
    requires s != "" && s[0] == '"'
    ensures ReadArg(s, quoted, k)
         == if k % 2 == 1 then ReadArg(s[1..], quoted, 0).Prepend(Slashes(k / 2) + "\"")
            else if quoted && |s| > 1 && s[1] == '"' then ReadArg(s[2..], quoted, 0).Prepend(Slashes(k / 2) + "\"")
            else ReadArg(s[1..], !quoted, 0).Prepend(Slashes(k / 2))
  {
  }

  lemma ReadBlank(x: string)
    ensures ReadArg(" " + x, false, 0) == Read("", " " + x)
    ensures forall n: nat :: Read("", " " + x).Prepend(Slashes(n)) == Read(Slashes(n), " " + x)
  {
    forall n: nat ensures Read("", " " + x).Prepend(Slashes(n)) == Read(Slashes(n), " " + x) {
      assert Slashes(n) + "" == Slashes(n);
    }
  }

  lemma ReadPlainChar(c: char, rest: string, x: string, k: nat)
    requires !IsBlank(c) && c != '"'
    requires var n := if c == '\\' then k + 1 else 0; ReadArg(rest + x, false, n) == Read(Slashes(n) + rest, x)
    ensures ReadArg([c] + rest + x, false, k) == Read(Slashes(k) + ([c] + rest), x)
  {
    SlashesNext(k);
    ReadChar(c, rest + x, false, k);
    assert "" + rest == rest;
    hide ReadArg, Slashes, IsBlank;
    Assoc([c], rest, x);
    Assoc(Slashes(k), [c], rest);
  }

  /** Without quotes: text without blanks or quotes is read as it is. */
  lemma {:induction false} ReadPlain(t: string, x: string, k: nat)
    requires forall c :: c in t ==> !IsBlank(c) && c != '"'
    requires x == "" || IsBlank(x[0])
    ensures ReadArg(t + x, false, k) == Read(Slashes(k) + t, x)
  {
    if t == "" {
      assert t + x == x && Slashes(k) + t == Slashes(k);
    } else {
      var (c, rest) := (t[0], t[1..]);
      assert t == [c] + rest && c in t && forall d :: d in rest ==> d in t;
      hide *;
      ReadPlain(rest, x, if c == '\\' then k + 1 else 0);
      ReadPlainChar(c, rest, x, k);
    }
  }

  /** An argument that is written in a form the reader takes as a whole. */
  predicate Clean(a: string) { '\t' in a ==> NeedsQuote(a) }

  lemma ReadQuoted(a: string, x: string)
    ensures ReadArg(Quoted(a) + " " + x, false, 0) == Read(a, " " + x)
  {
    var s, t := Quoted(a) + " " + x, Escape(a, 0) + "\" " + x;
    assert s[0] == '"' && s[1..] == t;
    ReadEscaped(a, 0, x);
    hide Escape;
    assert Slashes(0) + (Slashes(Run(a, 0)) + a[0..]) == a;
  }

  lemma ReadEmitted(a: string, x: string)
    requires Clean(a)
    ensures ReadArgs(Emit(a) + x) == [a] + ReadArgs(x)
  {
    var s := Emit(a) + x;
    assert (" " + x)[1..] == x;
    if NeedsQuote(a) {
      assert s == Quoted(a) + " " + x;
      ReadQuoted(a, x);
      assert s[0] == '"';
    } else {
      assert s == a + (" " + x) && s[0] == a[0];
      ReadPlain(a, " " + x, 0);
      assert Slashes(0) + a == a;
    }
    hide ReadArg, Emit;
  }

  // ----- exactly when the whole command line reads back

  lemma {:induction false} ReadStopsAtTab(u: string, x: string, k: nat)
    requires ' ' !in u && '"' !in u
    ensures '\t' !in ReadArg(u + (" " + x), false, k).arg
  {
    SlashesOnly(k);
    var s := u + (" " + x);
    if u != "" && !IsBlank(u[0]) {
      assert s[1..] == u[1..] + (" " + x) && s[0] == u[0];
      ReadStopsAtTab(u[1..], x, if u[0] == '\\' then k + 1 else 0);
    } else {
      assert s[0] == if u == "" then ' ' else u[0];
    }
  }

  lemma {:induction false} SlashesOnly(n: nat)
    ensures forall c :: c in Slashes(n) ==> c == '\\'
  {
    if n > 0 { SlashesOnly(n - 1); }
  }

  /** Tabs in front of unquoted text are skipped, and the argument read then has no tab in it. */
  lemma {:induction false} ReadUnclean(u: string, x: string)
    requires ' ' !in u && '"' !in u
    ensures ReadArgs(u + (" " + x)) == ReadArgs(x)
      || (ReadArgs(u + (" " + x)) != [] && '\t' !in ReadArgs(u + (" " + x))[0])
  {
    var s := u + (" " + x);
    if u == "" {
      assert s == " " + x && s[1..] == x;
    } else if u[0] == '\t' {
      assert s[1..] == u[1..] + (" " + x) && s[0] == u[0];
      ReadUnclean(u[1..], x);
    } else {
      assert s[0] == u[0];
      ReadStopsAtTab(u, x, 0);
    }
  }

  /** The first argument read from what was written is never one that was not written as a whole. */
  lemma {:induction false} FirstReadIsClean(args: seq<string>)
    ensures var r := ReadArgs(CommandLine(args)); r == [] || Clean(r[0])
  {
    if args != [] {
      var x := CommandLine(args[1..]);
      if Clean(args[0]) {
        ReadEmitted(args[0], x);
      } else {
        assert CommandLine(args) == args[0] + (" " + x);
        ReadUnclean(args[0], x);
        FirstReadIsClean(args[1..]);
      }
    }
  }

  /** The arguments read back exactly when each that has a tab also has a space or a quote, or is empty. */
  lemma {:induction false} ArgsReadBackIff(args: seq<string>)
    ensures ReadArgs(CommandLine(args)) == args <==> forall a :: a in args ==> Clean(a)
  {
    if args != [] {
      FirstReadIsClean(args);
      if Clean(args[0]) {
        ReadEmitted(args[0], CommandLine(args[1..]));
        ArgsReadBackIff(args[1..]);
        assert args == [args[0]] + args[1..];
      }
    }
  }

  // ----- the program name

  lemma {:induction false} ProgramHasNoQuote(s: string, quoted: bool)
    ensures '"' !in ReadProgram(s, quoted).arg
  {
    if s != "" && !(IsBlank(s[0]) && !quoted) {
      ProgramHasNoQuote(s[1..], if s[0] == '"' then !quoted else quoted);
    }
  }

  lemma {:induction false} ReadProgramQuoted(t: string, x: string)
    requires '"' !in t
    ensures ReadProgram(t + ("\" " + x), true) == Read(t, " " + x)
  {
    var s := t + ("\" " + x);
    if t == "" {
      assert s == "\" " + x && s[1..] == " " + x;
    } else {
      assert s[0] == t[0] && t[0] in t && s[1..] == t[1..] + ("\" " + x);
      ReadProgramQuoted(t[1..], x);
    }
  }

  lemma {:induction false} ReadProgramPlain(t: string, x: string)
    requires ' ' !in t && '"' !in t
    ensures var r := ReadProgram(t + (" " + x), false);
      if '\t' in t then '\t' !in r.arg else r == Read(t, " " + x)
  {
    var s := t + (" " + x);
    if t == "" {
      assert s == " " + x;
    } else {
      assert s[0] == t[0] && t[0] in t && s[1..] == t[1..] + (" " + x);
      if t[0] != '\t' { ReadProgramPlain(t[1..], x); }
    }
  }

  /** Without quotes in it, only the backslashes at the end of an argument are escaped. */
  lemma {:induction false} EscapeWithoutQuotes(a: string, i: nat)
    requires i <= |a| && '"' !in a
    ensures Escape(a, i) == a[i..] + if i == |a| then "" else Slashes(Run(a, |a|))
    decreases |a| - i
  {
    hide *;
    EscapeEnds(a);
    if i < |a| {
      EscapeWithoutQuotes(a, i + 1);
      PieceWithoutQuotes(a, i);
      EscapeNext(a, i, "");
      if i + 1 < |a| { Assoc([a[i]], a[i + 1..], Slashes(Run(a, |a|))); }
    }
  }

  lemma EscapeEnds(a: string)
    ensures Escape(a, |a|) == a[|a|..] == ""
  {
  }

  lemma PieceWithoutQuotes(a: string, i: nat)
    requires i < |a| && '"' !in a
    ensures Escape(a, i) == Piece(a, i) + Escape(a, i + 1)
    ensures Piece(a, i) == [a[i]] + if i + 1 == |a| then Slashes(Run(a, |a|)) else ""
  {
    assert a[i] in a;
    assert [a[i]] + "" == [a[i]];
    RunStep(a, i);
    hide Run, Escape;
  }

  /**
   The condition on the program path: no quote; no backslash at the end if it has a space; and
   no tab unless it has a space.
   */
  predicate CleanProgram(p: string) {
    p != "" && '"' !in p && if ' ' in p then p[|p| - 1] != '\\' else '\t' !in p
  }

  lemma ReadProgramWithSpace(p: string, x: string)
    requires ' ' in p && '"' !in p
    ensures ReadProgram(Emit(p) + x, false) == Read(p + Slashes(Run(p, |p|)), " " + x)
  {
    var t := p + Slashes(Run(p, |p|));
    EscapeWithoutQuotes(p, 0);
    assert p[0..] == p;
    SlashesOnly(Run(p, |p|));
    assert Emit(p) + x == "\"" + t + "\"" + " " + x;
    ReadProgramInQuotes(t, x);
  }

  lemma ReadProgramInQuotes(t: string, x: string)
    requires '"' !in t
    ensures ReadProgram("\"" + t + "\"" + " " + x, false) == Read(t, " " + x)
  {
    var s := "\"" + t + "\"" + " " + x;
    assert s[0] == '"' && s[1..] == t + ("\" " + x);
    ReadProgramQuoted(t, x);
  }

  lemma ReadProgramIff(p: string, x: string)
    requires p != ""
    ensures ReadProgram(Emit(p) + x, false).arg == p <==> CleanProgram(p)
    ensures CleanProgram(p) ==> ReadProgram(Emit(p) + x, false).rest == " " + x
  {
    ProgramHasNoQuote(Emit(p) + x, false);
    hide ReadProgram;
    if '"' !in p {
      if ' ' in p {
        ReadProgramWithSpace(p, x);
        assert |p + Slashes(Run(p, |p|))| == |p| + Run(p, |p|);
        assert Slashes(0) == "" && p + "" == p;
      } else {
        assert Emit(p) + x == p + (" " + x);
        ReadProgramPlain(p, x);
      }
    }
  }

  /**
   Reading the command line gives back the program path and the arguments if and only if the
   path is clean and each argument with a tab also has a space or a quote.
   */
  lemma CommandLineReadsBackIff(program: string, args: seq<string>)
    requires program != ""
    ensures ReadCommandLine(CommandLine([program] + args)) == [program] + args
      <==> CleanProgram(program) && forall a :: a in args ==> Clean(a)
  {
    var x := CommandLine(args);
    assert ([program] + args)[1..] == args;
    assert CommandLine([program] + args) == Emit(program) + x;
    ReadProgramIff(program, x);
    ArgsReadBackIff(args);
    assert (" " + x)[1..] == x;
  }

  // ----- room

  /** Twice the characters of each argument, and three more. */
  function Room(args: seq<string>): nat {
    if args == [] then 0 else 2 * |args[0]| + 3 + Room(args[1..])
  }

  lemma {:induction false} EscapeRoom(a: string, i: nat)
    requires i <= |a|
    ensures |Escape(a, i)| + Run(a, i) <= 2 * (|a| - i) + 2 * Run(a, i)
    decreases |a| - i
  {
    hide *;
    EscapeLength(a, i);
    if i < |a| {
      PieceRoom(a, i);
      EscapeRoom(a, i + 1);
    }
  }

  lemma EscapeLength(a: string, i: nat)
    requires i <= |a|
    ensures i < |a| ==> |Escape(a, i)| == |Piece(a, i)| + |Escape(a, i + 1)|
    ensures |Escape(a, |a|)| == 0
  {
    hide Piece;
  }

  lemma PieceRoom(a: string, i: nat)
    requires i < |a|
    ensures |Piece(a, i)| <= 2 + Run(a, i)
    ensures i + 1 < |a| ==> |Piece(a, i)| + Run(a, i + 1) <= 2 + Run(a, i)
  {
    RunStep(a, i);
    SlashesOnly(Run(a, i));
    SlashesOnly(Run(a, i + 1));
    hide Run, Slashes;
  }

  /** Each argument takes at most twice its length and three characters. */
  lemma {:induction false} CommandLineRoom(args: seq<string>)
    ensures |CommandLine(args)| <= Room(args)
  {
    if args != [] {
      EscapeRoom(args[0], 0);
      CommandLineRoom(args[1..]);
    }
  }
}
