/**
 Writing the command line into the wrapper's fixed buffer, character by character.
 */
module CommandLineBuffer {
  import opened ArgvSyntax
  import opened Sequences

  const BUFFER_SIZE: nat := 4096

  /** The buffer holds the C string `s`. */
  ghost predicate Holds(buf: array<char>, s: string)
    reads buf
  {
    |s| < buf.Length && buf[..|s|] == s && buf[|s|] == '\0' && '\0' !in s
  }

  /** The length of the string in the buffer. */
  method StrLen(buf: array<char>, ghost s: string) returns (n: nat)
    requires Holds(buf, s)
    ensures n == |s|
  {
    assert forall k :: 0 <= k < |s| ==> buf[..|s|][k] == s[k] && s[k] in s;
    assert forall k :: 0 <= k < |s| ==> buf[k] != '\0';
    n := 0;
    while buf[n] != '\0'
      invariant n <= |s|
      decreases |s| - n
    {
      n := n + 1;
    }
  }

  /** Writes one character. */
  method Put(buf: array<char>, cl: nat, c: char) returns (cl': nat)
    requires cl < buf.Length
    modifies buf
    ensures cl' == cl + 1 && buf[..cl'] == old(buf[..cl]) + [c]
  {
    buf[cl] := c;
    cl' := cl + 1;
  }

  /** Writes a backslash for each one that ends the first `i` characters of `ca`. */
  method PutRun(buf: array<char>, cl: nat, ca: string, i: nat) returns (cl': nat)
    requires i <= |ca| && cl + Run(ca, i) <= buf.Length
    modifies buf
    ensures cl' == cl + Run(ca, i) && buf[..cl'] == old(buf[..cl]) + Slashes(Run(ca, i))
  {
    cl' := cl;
    var j := i;
    ghost var written := 0;
    while j > 0 && ca[j - 1] == '\\'
      invariant 0 <= j <= i && written + Run(ca, j) == Run(ca, i) && cl' == cl + written
      invariant buf[..cl'] == old(buf[..cl]) + Slashes(written)
    {
      cl' := Put(buf, cl', '\\');
      written := written + 1;
      j := j - 1;
    }
  }

  /** Writes an escaped quote: the backslashes before it once more, a backslash, and the quote. */
  method PutQuote(buf: array<char>, cl: nat, ca: string, i: nat) returns (cl': nat)
    requires i < |ca| && ca[i] == '"' && cl + Run(ca, i) + 2 <= buf.Length
    modifies buf
    ensures cl' == cl + Run(ca, i) + 2 && buf[..cl'] == old(buf[..cl]) + Piece(ca, i)
  {
    cl' := cl;
    if i > 0 && ca[i - 1] == '\\' {
      cl' := PutRun(buf, cl', ca, i);
    }
    cl' := Put(buf, cl', '\\');
    cl' := Put(buf, cl', '"');
  }

  lemma PieceIs(ca: string, i: nat)
    requires i < |ca|
    ensures ca[i] == '"' ==> |Piece(ca, i)| == Run(ca, i) + 2
    ensures ca[i] != '"' && !(ca[i] == '\\' && i + 1 == |ca|) ==> Piece(ca, i) == [ca[i]]
    ensures ca[i] == '\\' && i + 1 == |ca| ==>
              Piece(ca, i) == [ca[i]] + Slashes(Run(ca, i + 1)) && |Piece(ca, i)| == 1 + Run(ca, i + 1)
  {
    SlashesOnly(Run(ca, i));
    SlashesOnly(Run(ca, i + 1));
    hide Run;
  }

  /** Writes what the i-th character of a quoted argument needs. */
  method PutPiece(buf: array<char>, cl: nat, ca: string, i: nat) returns (cl': nat)
    requires i < |ca| && cl + |Piece(ca, i)| <= buf.Length
    modifies buf
    ensures cl' == cl + |Piece(ca, i)| && buf[..cl'] == old(buf[..cl]) + Piece(ca, i)
  {
    PieceIs(ca, i);
    hide *;
    ghost var before := buf[..cl];
    if ca[i] == '"' {
      cl' := PutQuote(buf, cl, ca, i);
    } else {
      cl' := Put(buf, cl, ca[i]);
      Assoc(before, [ca[i]], Slashes(Run(ca, i + 1)));
      if ca[i] == '\\' && i + 1 == |ca| {
        cl' := PutRun(buf, cl', ca, i + 1);
      }
    }
  }

  lemma {:induction false} EscapeHasNoNul(a: string, i: nat)
    requires i <= |a| && '\0' !in a
    ensures '\0' !in Escape(a, i)
    decreases |a| - i
  {
    if i < |a| {
      SlashesOnly(Run(a, i));
      SlashesOnly(Run(a, |a|));
      assert a[i] in a;
      EscapeHasNoNul(a, i + 1);
    }
  }

  /** Writes the characters of a quoted argument. */
  method PutEscaped(buf: array<char>, cl: nat, ca: string) returns (cl': nat)
    requires cl + |Escape(ca, 0)| <= buf.Length
    modifies buf
    ensures cl' == cl + |Escape(ca, 0)| && buf[..cl'] == old(buf[..cl]) + Escape(ca, 0)
  {
    cl' := cl;
    ghost var start, done := buf[..cl], "";
    for i := 0 to |ca|
      invariant done + Escape(ca, i) == Escape(ca, 0)
      invariant cl' == cl + |done| <= buf.Length && buf[..cl'] == start + done
    {
      ghost var piece := Piece(ca, i);
      Assoc(done, piece, Escape(ca, i + 1));
      Assoc(start, done, piece);
      hide Piece;
      cl' := PutPiece(buf, cl', ca, i);
      done := done + piece;
    }
  }

  /** Appends a quoted argument and a space. */
  method AppendQuoted(buf: array<char>, ghost before: string, ca: string)
    requires Holds(buf, before) && '\0' !in ca && |before| + |Quoted(ca)| + 1 < buf.Length
    modifies buf
    ensures Holds(buf, before + (Quoted(ca) + " "))
  {
    var cl := StrLen(buf, before);
    EscapeHasNoNul(ca, 0);
    hide Escape;
    cl := Put(buf, cl, '"');
    cl := PutEscaped(buf, cl, ca);
    cl := Put(buf, cl, '"');
    cl := Put(buf, cl, ' ');
    assert buf[..cl] == before + (Quoted(ca) + " ");
    buf[cl] := '\0';
  }

  /** Appends a string, as strcat does. */
  method StrCat(buf: array<char>, ghost before: string, s: string)
    requires Holds(buf, before) && '\0' !in s && |before| + |s| < buf.Length
    modifies buf
    ensures Holds(buf, before + s)
  {
    var cl := StrLen(buf, before);
    for i := 0 to |s|
      invariant cl == |before| + i && buf[..cl] == before + s[..i]
    {
      cl := Put(buf, cl, s[i]);
      assert s[..i + 1] == s[..i] + [s[i]];
    }
    assert s[..|s|] == s;
    buf[cl] := '\0';
  }

  /** The parts of the path of the wrapper itself. */
  datatype WrapperPath = WrapperPath(drive: string, dir: string, fname: string, ext: string) {

    /** The program the wrapper starts. */
    function Program(): string { drive + dir + "..\\libexec\\gnatstudio\\bin\\" + fname + ext }
  }

  method ComputeNeedQuote(ca: string) returns (needQuote: bool)
    ensures needQuote <==> NeedsQuote(ca)
    ensures needQuote <==> ca == "" || exists i :: 0 <= i < |ca| && (ca[i] == ' ' || ca[i] == '"')
  {
    needQuote := |ca| == 0;
    for i := 0 to |ca|
      invariant needQuote <==> ca == "" || ' ' in ca[..i] || '"' in ca[..i]
    {
      assert ca[..i + 1] == ca[..i] + [ca[i]];
      if ca[i] == ' ' || ca[i] == '"' {
        needQuote := true;
        break;
      }
    }
    assert ca[..|ca|] == ca;
  }

  /** The arguments the started program is meant to see. */
  function Forwarded(path: WrapperPath, argv: seq<string>): seq<string> {
    if argv == [] then [] else [path.Program()] + argv[1..]
  }

  /** Appends an argument, quoted if it has to be, and a space. */
  method AppendArgument(buf: array<char>, ghost before: string, ca: string)
    requires Holds(buf, before) && '\0' !in ca && |before| + |Emit(ca)| < buf.Length
    modifies buf
    ensures Holds(buf, before + Emit(ca))
  {
    var needQuote := ComputeNeedQuote(ca);
    if needQuote {
      AppendQuoted(buf, before, ca);
    } else {
      StrCat(buf, before, ca);
      StrCat(buf, before + ca, " ");
      Assoc(before, ca, " ");
    }
  }

  /** Builds the command line for the program in place of the wrapper and its arguments. */
  method BuildCommandLine(buf: array<char>, path: WrapperPath, argv: seq<string>) returns (ghost pieces: seq<string>)
    requires Holds(buf, "")
    requires '\0' !in path.Program() && forall a :: a in argv ==> '\0' !in a
    requires |CommandLine(Forwarded(path, argv))| < buf.Length
    modifies buf
    ensures Holds(buf, CommandLine(Forwarded(path, argv)))
    ensures Pieces(Forwarded(path, argv), pieces) && Holds(buf, Concat(pieces))
  {
    ghost var args := Forwarded(path, argv);
    pieces := CommandLineInPieces(args);
    hide Pieces, Concat;
    ghost var done := "";
    for k := 0 to |argv|
      invariant Holds(buf, done) && done + CommandLine(args[k..]) == CommandLine(args)
    {
      var ca := argv[k];
      if k == 0 { ca := path.Program(); }
      assert args[k] == ca && args[k..][1..] == args[k + 1..];
      Assoc(done, Emit(ca), CommandLine(args[k + 1..]));
      hide Emit, Holds;
      AppendArgument(buf, done, ca);
      done := done + Emit(ca);
    }
  }

  /** The buffer is large enough for arguments that leave room for two characters for each of theirs. */
  method CommandLineInBuffer(path: WrapperPath, argv: seq<string>) returns (buf: array<char>)
    requires '\0' !in path.Program() && forall a :: a in argv ==> '\0' !in a
    requires Room(Forwarded(path, argv)) < BUFFER_SIZE
    ensures buf.Length == BUFFER_SIZE && Holds(buf, CommandLine(Forwarded(path, argv)))
  {
    CommandLineRoom(Forwarded(path, argv));
    buf := new char[BUFFER_SIZE](_ => '\0');
    ghost var pieces := BuildCommandLine(buf, path, argv);
  }

  /**
   What the started program reads from the buffer: its own path and the wrapper's arguments,
   exactly under the conditions on blanks and quotes.
   */
  lemma BuiltCommandLineReadsBackIff(path: WrapperPath, argv: seq<string>)
    requires argv != []
    ensures ReadCommandLine(CommandLine(Forwarded(path, argv))) == Forwarded(path, argv)
      <==> CleanProgram(path.Program()) && forall k :: 0 < k < |argv| ==> Clean(argv[k])
  {
    CommandLineReadsBackIff(path.Program(), argv[1..]);
    assert forall k :: 0 < k < |argv| ==> argv[k] == argv[1..][k - 1];
  }
}
