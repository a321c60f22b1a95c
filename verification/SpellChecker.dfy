/**
 Correcting the misspelled words of a line in place. The spell checker sees the whole line once,
 so that all its positions are in the original line, while the buffer changes under them.
 */
module SpellChecker {
  import opened Wrappers

  // ----- what correcting a line means

  /** The text from `at` up to `upto` of a line, and what takes its place. */
  datatype Edit = Edit(at: nat, upto: nat, text: string)

  /** The edits are in order, do not overlap, and lie behind `from` and before `end`. */
  predicate Ordered(edits: seq<Edit>, from: nat, end: nat) {
    if edits == [] then from <= end
    else from <= edits[0].at <= edits[0].upto && Ordered(edits[1..], edits[0].upto, end)
  }

  /** All edits applied at once, to the line from `from` on. */
  function Substituted(line: string, edits: seq<Edit>, from: nat): string
    requires Ordered(edits, from, |line|)
  {
    if edits == [] then line[from..]
    else
      OrderedEnds(edits, from, |line|);
      line[from..edits[0].at] + edits[0].text + Substituted(line, edits[1..], edits[0].upto)
  }

  /** How much longer the edits make a line. */
  function Growth(edits: seq<Edit>): int {
    if edits == [] then 0 else |edits[0].text| - (edits[0].upto - edits[0].at) + Growth(edits[1..])
  }

  lemma {:induction false} OrderedEnds(edits: seq<Edit>, from: nat, end: nat)
    requires Ordered(edits, from, end)
    ensures from <= end && (edits != [] ==> edits[0].upto <= end)
  {
    if edits != [] { OrderedEnds(edits[1..], edits[0].upto, end); }
  }

  lemma {:induction false} SubstitutedLength(line: string, edits: seq<Edit>, from: nat)
    requires Ordered(edits, from, |line|)
    ensures |Substituted(line, edits, from)| == |line| - from + Growth(edits)
  {
    OrderedEnds(edits, from, |line|);
    if edits != [] { SubstitutedLength(line, edits[1..], edits[0].upto); }
  }

  function Replaced(s: string, at: nat, upto: nat, text: string): string
    requires at <= upto <= |s|
  {
    s[..at] + text + s[upto..]
  }

  lemma {:induction false} GrowthOneMore(edits: seq<Edit>, last: Edit)
    ensures Growth(edits + [last]) == Growth(edits) + |last.text| - (last.upto - last.at)
  {
    if edits == [] {
      assert [last][1..] == [] && edits + [last] == [last];
    } else {
      GrowthOneMore(edits[1..], last);
      assert (edits + [last])[1..] == edits[1..] + [last];
    }
  }

  /** One more edit at the end is a replacement in the text that the others give, moved by their growth. */
  lemma {:induction false} SubstituteOneMore(line: string, edits: seq<Edit>, last: Edit, from: nat)
    requires Ordered(edits, from, last.at) && last.at <= last.upto <= |line|
    ensures Ordered(edits, from, |line|) && Ordered(edits + [last], from, |line|)
    ensures 0 <= last.at - from + Growth(edits)
            && last.upto - from + Growth(edits) <= |Substituted(line, edits, from)|
            && Substituted(line, edits + [last], from)
               == Replaced(Substituted(line, edits, from),
                           last.at - from + Growth(edits), last.upto - from + Growth(edits), last.text)
  {
    hide *;
    OrderedWithin(edits, from, last.at, |line|);
    OrderedOneMore(edits, last, from, |line|);
    if edits == [] {
      SubstituteOne(line, last, from);
    } else {
      var (e, rest) := (edits[0], edits[1..]);
      FirstEdit(line, edits, from, last.at);
      FirstEdit(line, edits, from, |line|);
      FirstEdit(line, edits + [last], from, |line|);
      assert (edits + [last])[1..] == rest + [last] && (edits + [last])[0] == e;
      SubstituteOneMore(line, rest, last, e.upto);
      var (at, upto) := (last.at - e.upto + Growth(rest), last.upto - e.upto + Growth(rest));
      ReplacedBehind(line[from..e.at] + e.text, Substituted(line, rest, e.upto), at, upto, last.text);
    }
  }

  lemma SubstituteOne(line: string, last: Edit, from: nat)
    requires Ordered([], from, last.at) && last.at <= last.upto <= |line|
    ensures from <= last.at && Growth([]) == 0 && [] + [last] == [last]
    ensures Ordered([], from, |line|) && Substituted(line, [], from) == line[from..] && Ordered([last], from, |line|)
    ensures Substituted(line, [last], from) == Replaced(line[from..], last.at - from, last.upto - from, last.text)
  {
    assert [last][1..] == [];
    assert line[from..][..last.at - from] == line[from..last.at];
    assert line[from..][last.upto - from..] == line[last.upto..];
  }

  /** What the first edit contributes. */
  lemma FirstEdit(line: string, edits: seq<Edit>, from: nat, end: nat)
    requires edits != [] && Ordered(edits, from, end)
    ensures from <= edits[0].at <= edits[0].upto <= end && Ordered(edits[1..], edits[0].upto, end)
    ensures Growth(edits) == |edits[0].text| - (edits[0].upto - edits[0].at) + Growth(edits[1..])
    ensures end == |line| ==>
              Substituted(line, edits, from)
              == line[from..edits[0].at] + edits[0].text + Substituted(line, edits[1..], edits[0].upto)
  {
    OrderedEnds(edits, from, end);
  }

  lemma ReplacedBehind(front: string, s: string, at: nat, upto: nat, text: string)
    requires at <= upto <= |s|
    ensures front + Replaced(s, at, upto, text) == Replaced(front + s, |front| + at, |front| + upto, text)
  {
  }

  lemma ReplacedBetween(front: string, s: string, back: string, at: nat, upto: nat, text: string)
    requires at <= upto <= |s|
    ensures front + Replaced(s, at, upto, text) + back == Replaced(front + s + back, |front| + at, |front| + upto, text)
  {
    ReplacedBehind(front, s, at, upto, text);
  }

  /** Every replacement is where the edits before it have moved it to. */
  lemma {:induction false} ReplacementsArePlaced(line: string, edits: seq<Edit>, from: nat, k: nat)
    requires Ordered(edits, from, |line|) && k < |edits|
    ensures var at := edits[k].at - from + Growth(edits[..k]);
      && 0 <= at && at + |edits[k].text| <= |Substituted(line, edits, from)|
      && Substituted(line, edits, from)[at..at + |edits[k].text|] == edits[k].text
  {
    FirstEdit(line, edits, from, |line|);
    hide Substituted, Ordered;
    if k > 0 {
      ReplacementsArePlaced(line, edits[1..], edits[0].upto, k - 1);
      assert edits[..k][1..] == edits[1..][..k - 1];
      var front := line[from..edits[0].at] + edits[0].text;
      hide *;
      Behind(front, Substituted(line, edits[1..], edits[0].upto),
             edits[k].at - edits[0].upto + Growth(edits[1..][..k - 1]), edits[k].text);
    }
  }

  lemma Behind(front: string, s: string, at: nat, text: string)
    requires at + |text| <= |s| && s[at..at + |text|] == text
    ensures (front + s)[|front| + at..|front| + at + |text|] == text
  {
  }

  /** Every other character is where the edits before it have moved it to. */
  lemma {:induction false} OthersAreKept(line: string, edits: seq<Edit>, from: nat, k: nat, i: nat)
    requires Ordered(edits, from, |line|) && k <= |edits|
    requires (if k == 0 then from else edits[k - 1].upto) <= i < (if k == |edits| then |line| else edits[k].at)
    ensures i < |line|
    ensures var at := i - from + Growth(edits[..k]);
      && 0 <= at < |Substituted(line, edits, from)| && Substituted(line, edits, from)[at] == line[i]
  {
    OrderedEnds(edits, from, |line|);
    if k > 0 {
      FirstEdit(line, edits, from, |line|);
      hide Substituted, Ordered;
      OthersAreKept(line, edits[1..], edits[0].upto, k - 1, i);
      assert edits[..k][1..] == edits[1..][..k - 1];
    }
  }

  // ----- the spell checker's answers and the user's

  /** A line of the spell checker's output; offsets count from a space that is put in front. */
  datatype Report = Miss(word: string, offset: nat, suggestions: seq<string>) | Other

  /** What the user does about a word. */
  datatype Answer = Replace(text: string) | Accept | Skip | Cancel

  /** What is reported is in the line, from left to right. */
  predicate Reported(line: string, reports: seq<Report>) {
    && (forall r :: r in reports && r.Miss? ==>
          && r.word != "" && 1 <= r.offset && r.offset - 1 + |r.word| <= |line|
          && line[r.offset - 1..r.offset - 1 + |r.word|] == r.word)
    && (forall i, j :: 0 <= i < j < |reports| && reports[i].Miss? && reports[j].Miss? ==>
          reports[i].offset + |reports[i].word| <= reports[j].offset)
  }

  /** The words accepted by the answers to the first `n` reports. */
  function Accepted(reports: seq<Report>, answers: nat -> Answer, n: nat): set<string>
    requires n <= |reports|
  {
    if n == 0 then {}
    else
      var dict := Accepted(reports, answers, n - 1);
      var r := reports[n - 1];
      if r.Miss? && r.word !in dict && answers(n - 1) == Accept then dict + {r.word} else dict
  }

  /** Whether the user is asked about a report. */
  predicate Asked(reports: seq<Report>, answers: nat -> Answer, i: nat)
    requires i < |reports|
  {
    reports[i].Miss? && reports[i].word !in Accepted(reports, answers, i)
  }

  /** The edits that the answers to the first `n` reports ask for, in the original line. */
  function EditsOf(reports: seq<Report>, answers: nat -> Answer, n: nat): seq<Edit>
    requires n <= |reports| && forall r :: r in reports && r.Miss? ==> 1 <= r.offset
  {
    if n == 0 then []
    else
      var done := EditsOf(reports, answers, n - 1);
      var r := reports[n - 1];
      if Asked(reports, answers, n - 1) && answers(n - 1).Replace?
      then done + [Edit(r.offset - 1, r.offset - 1 + |r.word|, answers(n - 1).text)]
      else done
  }

  lemma {:induction false} AcceptedGrows(reports: seq<Report>, answers: nat -> Answer, m: nat, n: nat)
    requires m <= n <= |reports|
    ensures Accepted(reports, answers, m) <= Accepted(reports, answers, n)
    decreases n
  {
    if m < n { AcceptedGrows(reports, answers, m, n - 1); }
  }

  /** Nobody is asked about a word that was accepted in the same line, and only accepted words are passed over. */
  lemma AskedUnlessAccepted(reports: seq<Report>, answers: nat -> Answer, j: nat)
    requires j < |reports| && reports[j].Miss?
    ensures Asked(reports, answers, j) <==>
            !exists i: nat :: i < j && Asked(reports, answers, i) && answers(i) == Accept
                              && reports[i].word == reports[j].word
  {
    if i: nat :| i < j && Asked(reports, answers, i) && answers(i) == Accept && reports[i].word == reports[j].word {
      assert reports[j].word in Accepted(reports, answers, i + 1);
      AcceptedGrows(reports, answers, i + 1, j);
    }
    if !Asked(reports, answers, j) { var i := WhenAccepted(reports, answers, j, reports[j].word); }
  }

  lemma {:induction false} WhenAccepted(reports: seq<Report>, answers: nat -> Answer, n: nat, word: string)
    returns (i: nat)
    requires n <= |reports| && word in Accepted(reports, answers, n)
    ensures i < n && Asked(reports, answers, i) && answers(i) == Accept && reports[i].word == word
  {
    if word in Accepted(reports, answers, n - 1) {
      i := WhenAccepted(reports, answers, n - 1, word);
    } else {
      i := n - 1;
    }
  }

  lemma {:induction false} OrderedOneMore(edits: seq<Edit>, last: Edit, from: nat, end: nat)
    requires Ordered(edits, from, last.at) && last.at <= last.upto <= end
    ensures Ordered(edits + [last], from, end)
  {
    OrderedEnds(edits, from, last.at);
    if edits == [] {
      assert [last][1..] == [];
    } else {
      OrderedOneMore(edits[1..], last, edits[0].upto, end);
      assert (edits + [last])[1..] == edits[1..] + [last];
    }
  }

  lemma NothingIsOrdered(end: nat)
    ensures Ordered([], 0, end)
  {
  }

  lemma {:induction false} OrderedWithin(edits: seq<Edit>, from: nat, end: nat, more: nat)
    requires Ordered(edits, from, end) && end <= more
    ensures Ordered(edits, from, more)
  {
    if edits != [] { OrderedWithin(edits[1..], edits[0].upto, end, more); }
  }

  /** The edits of the first reports end before whatever is reported later. */
  lemma {:induction false} EditsAreOrdered(line: string, reports: seq<Report>, answers: nat -> Answer, n: nat, end: nat)
    requires Reported(line, reports) && n <= |reports|
    requires forall i :: 0 <= i < n && reports[i].Miss? ==> reports[i].offset - 1 + |reports[i].word| <= end
    ensures Ordered(EditsOf(reports, answers, n), 0, end)
  {
    hide Ordered, Accepted;
    if n == 0 {
      NothingIsOrdered(end);
    } else {
      var r := reports[n - 1];
      if r.Miss? {
        EditsAreOrdered(line, reports, answers, n - 1, r.offset - 1);
        OrderedWithin(EditsOf(reports, answers, n - 1), 0, r.offset - 1, end);
        if answers(n - 1).Replace? {
          var last := Edit(r.offset - 1, r.offset - 1 + |r.word|, answers(n - 1).text);
          OrderedOneMore(EditsOf(reports, answers, n - 1), last, 0, end);
        }
      } else {
        EditsAreOrdered(line, reports, answers, n - 1, end);
      }
    }
  }

  // ----- the editor

  /** Where a mark is after the text from `at` up to `upto` has been deleted. */
  function AfterDelete(m: nat, at: nat, upto: nat): nat
    requires at <= upto
  {
    if m <= at then m else if m < upto then at else m - (upto - at)
  }

  /** Where a mark is after `n` characters have been inserted; at the place itself, it stays in front. */
  function AfterInsert(m: nat, at: nat, n: nat): nat {
    if m <= at then m else m + n
  }

  /** The location `n` characters on from `at`, or back; a move stops at either end of the buffer. */
  function Moved(at: nat, n: int, size: nat): nat {
    if at + n < 0 then 0 else if at + n <= size then at + n else size
  }

  lemma MovedWithin(at: nat, n: nat, size: nat)
    requires at + n <= size
    ensures Moved(at, n, size) == at + n
  {
  }

  /** The text that deleting both locations and what is between them takes away. */
  function Doomed(a: nat, b: nat, size: nat): (r: (nat, nat))
    requires a <= size && b <= size
    ensures r.0 <= r.1 <= size
  {
    var (lo, hi) := if a <= b then (a, b) else (b, a);
    (lo, if hi < size then hi + 1 else hi)
  }

  class EditorBuffer {
    var text: string
    var marks: seq<nat>

    constructor (text: string)
      ensures this.text == text && marks == []
    {
      this.text, marks := text, [];
    }

    function Move(at: nat, n: int): (r: nat)
      reads this
      ensures r <= |text|
    {
      Moved(at, n, |text|)
    }

    /** A new mark at a location. */
    method CreateMark(at: nat) returns (mark: nat)
      requires at <= |text|
      modifies `marks
      ensures mark == old(|marks|) && marks == old(marks) + [at]
    {
      mark := |marks|;
      marks := marks + [at];
    }

    /** Deletes the characters from one location to another, in either order and both included. */
    method Delete(from: nat, to: nat)
      requires from <= |text| && to <= |text|
      modifies this
      ensures var (lo, hi) := Doomed(from, to, |old(text)|);
        && text == Replaced(old(text), lo, hi, "") && |marks| == |old(marks)|
        && forall i :: 0 <= i < |marks| ==> marks[i] == AfterDelete(old(marks[i]), lo, hi)
    {
      var (lo, hi) := Doomed(from, to, |text|);
      text := text[..lo] + text[hi..];
      marks := seq(|marks|, i requires 0 <= i < |marks| reads this => AfterDelete(marks[i], lo, hi));
    }

    /** Inserts text, unless the location is no longer in the buffer. */
    method Insert(at: nat, s: string)
      modifies this
      ensures text == (if at <= |old(text)| then Replaced(old(text), at, at, s) else old(text))
      ensures |marks| == |old(marks)| && forall i :: 0 <= i < |marks| ==>
                marks[i] == if at <= |old(text)| then AfterInsert(old(marks[i]), at, |s|) else old(marks[i])
    {
      if at <= |text| {
        text := text[..at] + s + text[at..];
        marks := seq(|marks|, i requires 0 <= i < |marks| reads this => AfterInsert(marks[i], at, |s|));
      }
    }
  }

  // ----- dealing with one report after the other

  /** The text, the running offset, and where the mark of the next line is. */
  datatype Progress = Progress(text: string, adjust: int, next: nat)

  /** The location computed for a reported word: three moves from the start of the line. */
  function WordAt(size: nat, start: nat, adjust: int, offset: nat): (s: nat)
    ensures s <= size
  {
    Moved(Moved(Moved(start, -1, size), adjust, size), offset, size)
  }

  /** The text after what is at `s` up to `e` has been replaced. */
  function TextAfter(text: string, s: nat, e: nat, input: string): string
    requires s <= |text| && e <= |text|
  {
    var (lo, hi) := Doomed(s, Moved(e, -1, |text|), |text|);
    var rest := Replaced(text, lo, hi, "");
    if s <= |rest| then Replaced(rest, s, s, input) else rest
  }

  /** Where a mark is after that. */
  function MarkAfter(m: nat, text: string, s: nat, e: nat, input: string): nat
    requires s <= |text| && e <= |text|
  {
    var (lo, hi) := Doomed(s, Moved(e, -1, |text|), |text|);
    var at := AfterDelete(m, lo, hi);
    if s <= |text| - (hi - lo) then AfterInsert(at, s, |input|) else at
  }

  /** What asking about a report and doing what the answer says leads to. */
  function Step(p: Progress, start: nat, r: Report, a: Answer): Progress
    requires r.Miss?
  {
    var size := |p.text|;
    var s := WordAt(size, start, p.adjust, r.offset);
    var e := Moved(s, |r.word|, size);
    var mark := Moved(e, 1, size);
    match a
    case Replace(input) =>
      Progress(TextAfter(p.text, s, e, input), p.adjust + MarkAfter(mark, p.text, s, e, input) - e - 1,
               MarkAfter(p.next, p.text, s, e, input))
    case _ => Progress(p.text, p.adjust + mark - e - 1, p.next)
  }

  /** A line between other text, what is reported about it and what the user answers. */
  datatype Line = Line(before: string, text: string, after: string, reports: seq<Report>, answers: nat -> Answer) {
    /** The line ends behind what is reported, unless it is the last one and has no newline. */
    ghost predicate Valid() {
      && Reported(text, reports)
      && (after != "" ==> forall r :: r in reports && r.Miss? ==> r.offset - 1 + |r.word| < |text|)
    }

    /** What the first `n` reports lead to. */
    function Process(n: nat): Progress
      requires n <= |reports|
    {
      if n == 0 then Progress(before + text + after, 0, |before| + |text|)
      else if Asked(reports, answers, n - 1) then Step(Process(n - 1), |before|, reports[n - 1], answers(n - 1))
      else Process(n - 1)
    }

    function EditOf(n: nat): Edit
      requires Reported(text, reports) && n < |reports| && reports[n].Miss?
    {
      var r := reports[n];
      Edit(r.offset - 1, r.offset - 1 + |r.word|, if answers(n).Replace? then answers(n).text else r.word)
    }

    function Edits(n: nat): seq<Edit>
      requires Reported(text, reports) && n <= |reports|
    {
      EditsOf(reports, answers, n)
    }

    /** The buffer with all edits that the first `n` answers ask for, applied at once. */
    ghost function Wanted(n: nat): string
      requires Valid() && n <= |reports|
    {
      EditsAreOrdered(text, reports, answers, n, |text|);
      before + Substituted(text, Edits(n), 0) + after
    }

    /** Whether the moves to the i-th word stay within the buffer: the first one goes back one character. */
    predicate Placed(i: nat)
      requires Reported(text, reports) && i < |reports|
    {
      1 <= |before| && 0 <= |before| - 1 + Growth(Edits(i))
    }

    predicate AllPlaced(n: nat)
      requires Reported(text, reports) && n <= |reports|
    {
      forall i :: 0 <= i < n && Asked(reports, answers, i) ==> Placed(i)
    }

    /** Whether the i-th report asks about a word at the end of the line, and so of the buffer. */
    predicate AtEnd(i: nat)
      requires Reported(text, reports) && i < |reports|
    {
      Asked(reports, answers, i) && EditOf(i).upto == |text|
    }

    /** What the first `n` answers make the running offset fall short of the growth. */
    function Missing(n: nat): nat
      requires Reported(text, reports) && n <= |reports|
    {
      if n == 0 then 0 else Missing(n - 1) + if AtEnd(n - 1) then 1 + Inserted(n - 1) else 0
    }

    /** How far the mark of the next line has stayed behind. */
    function Lag(n: nat): nat
      requires Reported(text, reports) && n <= |reports|
    {
      if n == 0 then 0 else Lag(n - 1) + if AtEnd(n - 1) then Inserted(n - 1) else 0
    }

    function Inserted(i: nat): nat { if answers(i).Replace? then |answers(i).text| else 0 }

    /** Where the next line starts. */
    function NextLine(n: nat): int
      requires Reported(text, reports) && n <= |reports|
    {
      |before| + |text| + Growth(Edits(n))
    }

    /** Nothing is missing exactly if no word at the end was asked about. */
    lemma {:induction false} NothingIsMissingIff(n: nat)
      requires Reported(text, reports) && n <= |reports|
      ensures Missing(n) == 0 <==> forall i: nat :: i < n ==> !AtEnd(i)
      ensures Lag(n) == 0 <==> forall i: nat :: i < n && AtEnd(i) ==> Inserted(i) == 0
    {
      hide AtEnd, Inserted, Asked;
      if n > 0 { NothingIsMissingIff(n - 1); }
      hide Reported;
    }

    /** A word at the end is the last one. */
    lemma NoneBeforeAtEnd(n: nat)
      requires Reported(text, reports) && n < |reports| && reports[n].Miss?
      ensures Missing(n) == 0 && Lag(n) == 0
    {
      NothingIsMissingIff(n);
      forall i: nat | i < n ensures !AtEnd(i) {
        assert reports[n] in reports;
        assert reports[i].Miss? ==> reports[i].offset + |reports[i].word| <= reports[n].offset;
      }
    }

    /** A reported word is found where the edits before it have moved it to, inside the line. */
    lemma RoomForEdit(n: nat)
      requires Valid() && n < |reports| && reports[n].Miss?
      ensures Ordered(Edits(n), 0, |text|) && Ordered(Edits(n), 0, EditOf(n).at)
      ensures 0 <= EditOf(n).at + Growth(Edits(n)) && EditOf(n).upto == EditOf(n).at + |reports[n].word|
      ensures EditOf(n).upto + Growth(Edits(n)) <= |Substituted(text, Edits(n), 0)| == |text| + Growth(Edits(n))
      ensures EditOf(n).upto == |text| ==> after == ""
    {
      EditsAreOrdered(text, reports, answers, n, EditOf(n).at);
      SubstituteOneMore(text, Edits(n), EditOf(n), 0);
      SubstitutedLength(text, Edits(n), 0);
    }

    /** Replacing the word in the buffer is one more edit. */
    lemma WantedAfterEdit(n: nat)
      requires Valid() && n < |reports| && Asked(reports, answers, n) && answers(n).Replace?
      ensures Growth(Edits(n + 1)) == Growth(Edits(n)) + |answers(n).text| - |reports[n].word|
      ensures var at := |before| + EditOf(n).at + Growth(Edits(n));
        && 0 <= at && at + |reports[n].word| <= |Wanted(n)|
        && Wanted(n + 1) == Replaced(Wanted(n), at, at + |reports[n].word|, answers(n).text)
    {
      hide *;
      EditsOneMore(n);
      WantedIs(n);
      WantedIs(n + 1);
      var edit := EditOf(n);
      RoomForEdit(n);
      SubstituteOneMore(text, Edits(n), edit, 0);
      GrowthOneMore(Edits(n), edit);
      var (s, g) := (Substituted(text, Edits(n), 0), Growth(Edits(n)));
      ReplacedBetween(before, s, after, edit.at + g, edit.upto + g, edit.text);
    }

    lemma WantedIs(n: nat)
      requires Valid() && n <= |reports|
      ensures Reported(text, reports) && Ordered(Edits(n), 0, |text|)
      ensures Wanted(n) == before + Substituted(text, Edits(n), 0) + after
      ensures |Wanted(n)| == |before| + |text| + |after| + Growth(Edits(n))
    {
      EditsAreOrdered(text, reports, answers, n, |text|);
      SubstitutedLength(text, Edits(n), 0);
      hide Ordered, Substituted, Growth, Reported;
    }

    lemma EditsOneMore(n: nat)
      requires Valid() && n < |reports| && Asked(reports, answers, n) && answers(n).Replace?
      ensures Reported(text, reports) && reports[n].Miss? && Edits(n + 1) == Edits(n) + [EditOf(n)]
      ensures EditOf(n).text == answers(n).text && EditOf(n).upto - EditOf(n).at == |reports[n].word|
    {
    }

    /** The word is looked for where it is exactly if the moves stay within the buffer, and too far on if not. */
    lemma PlacedIff(i: nat)
      requires Valid() && i < |reports| && reports[i].Miss?
      ensures var s := WordAt(|Wanted(i)|, |before|, Growth(Edits(i)), reports[i].offset);
        && (s == |before| + EditOf(i).at + Growth(Edits(i)) <==> Placed(i))
        && s >= |before| + EditOf(i).at + Growth(Edits(i))
    {
      WantedIs(i);
      RoomForEdit(i);
      assert reports[i] in reports;
      hide Growth, Ordered, Substituted, EditsOf, Wanted;
    }

    /** The text, the offset and the mark are what they should be, but for a word at the end of the buffer. */
    ghost predicate IsRight(p: Progress, n: nat)
      requires Valid() && n <= |reports|
    {
      p.text == Wanted(n) && p.adjust == Growth(Edits(n)) - Missing(n) && p.next == NextLine(n) - Lag(n)
    }

    lemma StepIsRight(n: nat, p: Progress)
      requires Valid() && n < |reports| && Asked(reports, answers, n) && Placed(n) && IsRight(p, n)
      ensures IsRight(Step(p, |before|, reports[n], answers(n)), n + 1)
    {
      hide *;
      var s := WordIsAt(n, p);
      StepAt(p, |before|, reports[n], answers(n), s);
      NextCounts(n);
      if answers(n).Replace? { WantedAfterEdit(n); } else { WantedStays(n); }
      RightAgain(n, p, Step(p, |before|, reports[n], answers(n)), s);
    }

    /** The place of a reported word, and how it lies to the mark of the next line. */
    lemma WordIsAt(n: nat, p: Progress) returns (s: nat)
      requires Valid() && n < |reports| && Asked(reports, answers, n) && Placed(n) && IsRight(p, n)
      ensures Reported(text, reports) && reports[n].Miss? && reports[n].word != "" && Missing(n) == 0 && Lag(n) == 0
      ensures s == |before| + EditOf(n).at + Growth(Edits(n))
           && s == WordAt(|p.text|, |before|, p.adjust, reports[n].offset)
      ensures p.text == Wanted(n) && s + |reports[n].word| <= p.next <= |p.text|
      ensures (s + |reports[n].word| == |p.text| <==> AtEnd(n)) && (AtEnd(n) ==> p.next == |p.text|)
      ensures s + |reports[n].word| == p.next ==> AtEnd(n)
    {
      NoneBeforeAtEnd(n);
      PlacedIff(n);
      RoomForEdit(n);
      WantedIs(n);
      assert reports[n] in reports;
      s := |before| + EditOf(n).at + Growth(Edits(n));
      hide Growth, Ordered, Substituted, Wanted, WordAt, EditsOf, Accepted;
    }

    lemma NextCounts(n: nat)
      requires Valid() && n < |reports| && Asked(reports, answers, n)
      ensures Reported(text, reports)
      ensures Missing(n + 1) == Missing(n) + (if AtEnd(n) then 1 + Inserted(n) else 0)
      ensures Lag(n + 1) == Lag(n) + (if AtEnd(n) then Inserted(n) else 0)
      ensures Inserted(n) == if answers(n).Replace? then |answers(n).text| else 0
    {
      hide Reported, AtEnd;
    }

    lemma WantedStays(n: nat)
      requires Valid() && n < |reports| && !(Asked(reports, answers, n) && answers(n).Replace?)
      ensures Reported(text, reports) && Edits(n + 1) == Edits(n) && Wanted(n + 1) == Wanted(n)
    {
      hide Reported, Ordered, Substituted;
    }

    lemma RightAgain(n: nat, p: Progress, p': Progress, s: nat)
      requires Valid() && n < |reports| && IsRight(p, n) && Reported(text, reports) && Missing(n) == 0 && Lag(n) == 0
      requires p'.text == Wanted(n + 1)
      requires p'.adjust - p.adjust
            == Growth(Edits(n + 1)) - Growth(Edits(n)) - Missing(n + 1)
      requires p'.next - p.next == Growth(Edits(n + 1)) - Growth(Edits(n)) - Lag(n + 1)
      ensures IsRight(p', n + 1)
    {
      hide Growth, Wanted, Missing, Lag, Reported, EditsOf;
    }

    lemma ProcessIs(n: nat)
      requires 0 < n <= |reports| && Reported(text, reports)
      ensures Process(n) == if Asked(reports, answers, n - 1)
                            then Step(Process(n - 1), |before|, reports[n - 1], answers(n - 1)) else Process(n - 1)
      ensures AllPlaced(n) ==> AllPlaced(n - 1) && (Asked(reports, answers, n - 1) ==> Placed(n - 1))
    {
      hide Step, Placed;
    }

    lemma PassedIsRight(n: nat, p: Progress)
      requires Valid() && n < |reports| && !Asked(reports, answers, n) && IsRight(p, n)
      ensures IsRight(p, n + 1)
    {
      hide Substituted, Growth, Reported;
    }

    lemma AllPlacedIs(n: nat)
      requires Valid() && 0 < n <= |reports| && AllPlaced(n)
      ensures Reported(text, reports) && AllPlaced(n - 1)
    {
      hide Reported, Placed;
    }

    lemma StartIsRight()
      requires Valid()
      ensures IsRight(Process(0), 0)
    {
      WantedIs(0);
      assert Substituted(text, [], 0) == text;
      hide Reported;
    }

    /** As long as every move stays within the buffer, all is right. */
    lemma {:induction false} ProcessIsRight(n: nat)
      requires Valid() && n <= |reports| && AllPlaced(n)
      ensures IsRight(Process(n), n)
    {
      hide *;
      if n == 0 {
        StartIsRight();
      } else {
        AllPlacedIs(n);
        ProcessIs(n);
        ProcessIsRight(n - 1);
        if Asked(reports, answers, n - 1) {
          StepIsRight(n - 1, Process(n - 1));
        } else {
          PassedIsRight(n - 1, Process(n - 1));
        }
      }
    }

    /** The first replacement of a word that is looked for too far on is wrong, if it starts with another letter. */
    lemma WrongIfMisplaced(i: nat)
      requires Valid() && i < |reports| && AllPlaced(i) && Asked(reports, answers, i) && !Placed(i)
      requires answers(i).Replace? && answers(i).text != "" && answers(i).text[0] != reports[i].word[0]
      ensures Process(i + 1).text != Wanted(i + 1)
    {
      hide *;
      var s, e := MisplacedAt(i);
      WantedAfterEdit(i);
      WordIsThere(i);
      RoomForEdit(i);
      TooFarOn(Wanted(i), |before| + EditOf(i).at + Growth(Edits(i)), s, e, answers(i).text, |reports[i].word|);
    }

    /** Where a misplaced word is looked for, and what replacing it there leads to. */
    lemma MisplacedAt(i: nat) returns (s: nat, e: nat)
      requires Valid() && i < |reports| && AllPlaced(i) && Asked(reports, answers, i) && !Placed(i)
      ensures Reported(text, reports) && reports[i].Miss? && reports[i].word != ""
      ensures 0 <= |before| + EditOf(i).at + Growth(Edits(i)) < s <= e <= |Wanted(i)|
      ensures e == Moved(s, |reports[i].word|, |Wanted(i)|)
      ensures answers(i).Replace? ==> Process(i + 1).text == TextAfter(Wanted(i), s, e, answers(i).text)
    {
      assert reports[i] in reports;
      ProcessIsRight(i);
      NoneBeforeAtEnd(i);
      PlacedIff(i);
      RoomForEdit(i);
      s := WordAt(|Wanted(i)|, |before|, Growth(Edits(i)), reports[i].offset);
      e := Moved(s, |reports[i].word|, |Wanted(i)|);
      hide Growth, Ordered, Substituted, EditsOf, Wanted, WordAt, TextAfter, MarkAfter, Placed, AllPlaced;
    }

    /** What is shown to the user is the word, where it is in the buffer. */
    lemma CurrentIsWord(n: nat)
      requires Valid() && n < |reports| && Asked(reports, answers, n) && AllPlaced(n + 1)
      ensures reports[n].Miss?
      ensures var (p, word) := (Process(n), reports[n].word);
        var s := WordAt(|p.text|, |before|, p.adjust, reports[n].offset);
        && Moved(s, |word|, |p.text|) == s + |word| <= |p.text| && p.text[s..s + |word|] == word
    {
      hide *;
      AskedIs(n);
      ProcessIsRight(n);
      var s := WordIsAt(n, Process(n));
      WordIsThere(n);
      MovedWithin(s, |reports[n].word|, |Process(n).text|);
    }

    lemma AskedIs(n: nat)
      requires Valid() && n < |reports| && Asked(reports, answers, n) && AllPlaced(n + 1)
      ensures reports[n].Miss? && AllPlaced(n) && Placed(n)
    {
      hide Placed, Reported;
    }

    /** Until it is replaced itself, a reported word stands where the edits before it have moved it to. */
    lemma WordIsThere(i: nat)
      requires Valid() && i < |reports| && reports[i].Miss?
      ensures var at := |before| + EditOf(i).at + Growth(Edits(i));
        && reports[i].word != "" && 0 <= at && at + |reports[i].word| <= |Wanted(i)|
        && Wanted(i)[at..at + |reports[i].word|] == reports[i].word
    {
      WordIs(i);
      RoomForEdit(i);
      WantedIs(i);
      hide *;
      var (at, word) := (|before| + EditOf(i).at + Growth(Edits(i)), reports[i].word);
      forall j | 0 <= j < |word| ensures at + j < |Wanted(i)| && Wanted(i)[at + j] == word[j] {
        LetterIsThere(i, j);
      }
      SliceIs(Wanted(i), at, word);
    }

    lemma WordIs(i: nat)
      requires Valid() && i < |reports| && reports[i].Miss?
      ensures Reported(text, reports) && reports[i].word != ""
      ensures EditOf(i).upto == EditOf(i).at + |reports[i].word| && 0 <= EditOf(i).at && EditOf(i).upto <= |text|
      ensures text[EditOf(i).at..EditOf(i).upto] == reports[i].word
    {
      assert reports[i] in reports;
    }

    lemma LetterIsThere(i: nat, j: nat)
      requires Valid() && i < |reports| && reports[i].Miss? && j < |reports[i].word|
      ensures var at := |before| + EditOf(i).at + Growth(Edits(i)) + j;
        0 <= at < |Wanted(i)| && Wanted(i)[at] == reports[i].word[j]
    {
      var (edits, at) := (Edits(i), EditOf(i).at);
      WordIs(i);
      RoomForEdit(i);
      WantedIs(i);
      hide *;
      LastEnds(edits, 0, at);
      assert edits[..|edits|] == edits;
      OthersAreKept(text, edits, 0, |edits|, at + j);
      assert text[at..EditOf(i).upto][j] == text[at + j];
    }
  }

  lemma SliceIs(s: string, at: nat, word: string)
    requires at + |word| <= |s| && forall j :: 0 <= j < |word| ==> s[at + j] == word[j]
    ensures s[at..at + |word|] == word
  {
  }

  // ----- when all is right whatever the user answers

  /** The letters of the words reported before the n-th report. */
  function WordsBefore(reports: seq<Report>, n: nat): nat
    requires n <= |reports|
  {
    if n == 0 then 0 else WordsBefore(reports, n - 1) + if reports[n - 1].Miss? then |reports[n - 1].word| else 0
  }

  /** In front of the line there is a character, and one more for each letter that could be deleted before a word. */
  predicate RoomInFront(before: string, reports: seq<Report>) {
    forall j :: 0 <= j < |reports| && reports[j].Miss? ==> 1 + WordsBefore(reports, j) <= |before|
  }

  function Answered(l: Line, a: nat -> Answer): Line { l.(answers := a) }

  /** Whatever the answers, and however many, the buffer has all replacements at once. */
  ghost predicate AlwaysRight(l: Line)
    requires l.Valid()
  {
    forall a, n: nat :: Answered(l, a).Valid() && n <= |l.reports| ==>
      Answered(l, a).Process(n).text == Answered(l, a).Wanted(n)
  }

  lemma {:induction false} GrowthBound(l: Line, n: nat)
    requires l.Valid() && n <= |l.reports|
    ensures Growth(l.Edits(n)) + WordsBefore(l.reports, n) >= 0
  {
    if n > 0 {
      GrowthBound(l, n - 1);
      if Asked(l.reports, l.answers, n - 1) && l.answers(n - 1).Replace? {
        l.EditsOneMore(n - 1);
        GrowthOneMore(l.Edits(n - 1), l.EditOf(n - 1));
      }
      hide Growth, Accepted, Reported;
    }
  }

  /** Deleting every word makes the line as short as it can become. */
  lemma {:induction false} DeletingAll(l: Line, n: nat)
    requires l.Valid() && n <= |l.reports| && forall i :: 0 <= i < n ==> l.answers(i) == Replace("")
    ensures Accepted(l.reports, l.answers, n) == {} && Growth(l.Edits(n)) + WordsBefore(l.reports, n) == 0
  {
    if n > 0 {
      DeletingAll(l, n - 1);
      DeletingOne(l, n);
      hide *;
    }
  }

  lemma DeletingOne(l: Line, n: nat)
    requires l.Valid() && 0 < n <= |l.reports| && l.answers(n - 1) == Replace("")
    requires Accepted(l.reports, l.answers, n - 1) == {}
    ensures Accepted(l.reports, l.answers, n) == {}
    ensures Growth(l.Edits(n)) + WordsBefore(l.reports, n)
         == Growth(l.Edits(n - 1)) + WordsBefore(l.reports, n - 1)
  {
    if l.reports[n - 1].Miss? {
      l.EditsOneMore(n - 1);
      GrowthOneMore(l.Edits(n - 1), l.EditOf(n - 1));
    }
    hide Growth, Reported;
  }

  lemma {:induction false} FirstShort(before: string, reports: seq<Report>, n: nat) returns (j: nat)
    requires n < |reports| && reports[n].Miss? && |before| < 1 + WordsBefore(reports, n)
    ensures j <= n && reports[j].Miss? && |before| < 1 + WordsBefore(reports, j)
    ensures forall i :: 0 <= i < j && reports[i].Miss? ==> 1 + WordsBefore(reports, i) <= |before|
  {
    if i: nat :| i < n && reports[i].Miss? && |before| < 1 + WordsBefore(reports, i) {
      j := FirstShort(before, reports, i);
    } else {
      j := n;
    }
  }

  /**
   The corrections are right for all answers if and only if there is room in front of the line:
   for one character, and for the letters of the words reported before each word.
   */
  lemma AlwaysRightIff(l: Line)
    requires l.Valid()
    ensures AlwaysRight(l) <==> RoomInFront(l.before, l.reports)
  {
    if RoomInFront(l.before, l.reports) {
      forall a, n: nat | Answered(l, a).Valid() && n <= |l.reports|
        ensures Answered(l, a).Process(n).text == Answered(l, a).Wanted(n)
      {
        RoomIsEnough(Answered(l, a), n);
        Answered(l, a).ProcessIsRight(n);
      }
    } else {
      var n :| 0 <= n < |l.reports| && l.reports[n].Miss? && |l.before| < 1 + WordsBefore(l.reports, n);
      var j := FirstShort(l.before, l.reports, n);
      assert l.reports[j] in l.reports;
      var other := if l.reports[j].word[0] == 'a' then "b" else "a";
      var a := (i: nat) => if i < j then Replace("") else Replace(other);
      WrongForSome(Answered(l, a), j, other);
    }
  }

  lemma RoomIsEnough(l: Line, n: nat)
    requires l.Valid() && n <= |l.reports| && RoomInFront(l.before, l.reports)
    ensures l.AllPlaced(n)
  {
    forall i | 0 <= i < n && Asked(l.reports, l.answers, i) ensures l.Placed(i) { GrowthBound(l, i); }
  }

  lemma WrongForSome(l: Line, j: nat, other: string)
    requires l.Valid() && j < |l.reports| && l.reports[j].Miss? && |l.before| < 1 + WordsBefore(l.reports, j)
    requires forall i :: 0 <= i < j && l.reports[i].Miss? ==> 1 + WordsBefore(l.reports, i) <= |l.before|
    requires l.reports[j].word != "" && other != "" && other[0] != l.reports[j].word[0]
    requires (forall i :: 0 <= i < j ==> l.answers(i) == Replace("")) && l.answers(j) == Replace(other)
    ensures l.Process(j + 1).text != l.Wanted(j + 1)
  {
    assert l.reports[j] in l.reports;
    forall i | 0 <= i < j && Asked(l.reports, l.answers, i) ensures l.Placed(i) { DeletingAll(l, i); }
    DeletingAll(l, j);
    l.WrongIfMisplaced(j);
  }

  lemma ShiftedStep(r: Report)
    requires r == Miss("teh", 1, ["the"])
    ensures Step(Progress("teh cat\n", 0, 8), 0, r, Replace("the")).text == "tthecat\n"
  {
    assert Doomed(1, 3, 8) == (1, 4);
    assert Replaced("teh cat\n", 1, 4, "") == "tcat\n";
    assert Replaced("tcat\n", 1, 1, "the") == "tthecat\n";
  }

  lemma ShiftedEdits(l: Line)
    requires l == Line("", "teh cat\n", "", [Miss("teh", 1, ["the"])], l.answers) && l.answers(0) == Replace("the")
    ensures l.Valid() && Substituted(l.text, l.Edits(1), 0) == "the cat\n"
  {
    ShiftedReport(l.text, l.reports);
    var edit := Edit(0, 3, "the");
    OneEdit(l, edit);
    hide *;
    SubstituteOne(l.text, edit, 0);
    ShiftedText(l.text);
  }

  lemma ShiftedReport(text: string, reports: seq<Report>)
    requires text == "teh cat\n" && reports == [Miss("teh", 1, ["the"])]
    ensures Reported(text, reports)
  {
    assert text[0..3] == "teh";
  }

  lemma OneEdit(l: Line, edit: Edit)
    requires Reported(l.text, l.reports) && l.reports == [Miss("teh", 1, ["the"])] && l.answers(0) == Replace("the")
    requires edit == Edit(0, 3, "the") && |l.text| == 8 && l.after == ""
    ensures l.Valid() && l.Edits(1) == [] + [edit] && Ordered([], 0, 0) && edit.at == 0 && edit.upto == 3
    ensures edit.text == "the"
  {
    var r := l.reports[0];
    assert EditsOf(l.reports, l.answers, 0) == [] && Asked(l.reports, l.answers, 0) && |r.word| == 3;
    assert EditsOf(l.reports, l.answers, 1) == [] + [Edit(r.offset - 1, r.offset - 1 + |r.word|, l.answers(0).text)];
    hide Reported, EditsOf;
  }

  lemma ShiftedText(text: string)
    requires text == "teh cat\n"
    ensures Replaced(text[0..], 0, 3, "the") == "the cat\n"
  {
    assert text[0..] == text && text[..0] == "" && text[3..] == " cat\n";
  }

  /** At the start of a buffer even the first replacement is one character too far on. */
  lemma FirstLineIsShifted()
    ensures var l := Line("", "teh cat\n", "", [Miss("teh", 1, ["the"])], _ => Replace("the"));
      l.Valid() && l.Process(1).text == "tthecat\n" && l.Wanted(1) == "the cat\n"
  {
    var l := Line("", "teh cat\n", "", [Miss("teh", 1, ["the"])], _ => Replace("the"));
    ShiftedStep(l.reports[0]);
    ShiftedEdits(l);
    hide TextAfter, Step, Substituted, Reported;
    assert l.Process(0) == Progress("teh cat\n", 0, 8);
  }

  /** A step whose word lies within the text. */
  lemma StepAt(p: Progress, start: nat, r: Report, a: Answer, s: nat)
    requires r.Miss? && r.word != "" && s == WordAt(|p.text|, start, p.adjust, r.offset)
    requires s + |r.word| <= p.next <= |p.text|
    ensures var (e, p') := (s + |r.word|, Step(p, start, r, a));
      if a.Replace? then
        && p'.text == Replaced(p.text, s, e, a.text)
        && p'.adjust == p.adjust + (if e < |p.text| then |a.text| else -1) - |r.word|
        && p'.next == if e < p.next then p.next - |r.word| + |a.text| else s
      else
        p'.text == p.text && p'.next == p.next && p'.adjust == p.adjust - (if e < |p.text| then 0 else 1)
  {
    var e := s + |r.word|;
    assert e == Moved(s, |r.word|, |p.text|);
    if a.Replace? {
      ReplacedInOrder(p.text, s, e, a.text);
      MarkMoves(p.next, p.text, s, e, a.text);
      MarkMoves(Moved(e, 1, |p.text|), p.text, s, e, a.text);
    }
    hide WordAt, TextAfter, MarkAfter, Replaced;
  }

  lemma TooFarOn(all: string, at: nat, s: nat, e: nat, input: string, length: nat)
    requires at < s <= e <= |all| && 0 < length && at + length <= |all| && e == Moved(s, length, |all|)
    requires input != "" && input[0] != all[at]
    ensures TextAfter(all, s, e, input) != Replaced(all, at, at + length, input)
  {
    var wanted := Replaced(all, at, at + length, input);
    assert wanted[at] == input[0] && |wanted| == |all| - length + |input|;
    var (lo, hi) := Doomed(s, Moved(e, -1, |all|), |all|);
    var rest := Replaced(all, lo, hi, "");
    if at < lo {
      assert rest[at] == all[at];
      assert TextAfter(all, s, e, input)[at] == all[at];
    } else {
      assert |TextAfter(all, s, e, input)| == |all| - 1;
    }
  }

  lemma {:induction false} LastEnds(edits: seq<Edit>, from: nat, end: nat)
    requires Ordered(edits, from, end)
    ensures (if edits == [] then from else edits[|edits| - 1].upto) <= end
  {
    if edits != [] { LastEnds(edits[1..], edits[0].upto, end); }
  }

  lemma ReplacedInOrder(text: string, s: nat, e: nat, input: string)
    requires s < e <= |text|
    ensures TextAfter(text, s, e, input) == Replaced(text, s, e, input)
  {
    var rest := Replaced(text, s, e, "");
    assert rest[..s] == text[..s] && rest[s..] == text[e..];
  }

  lemma MarkMoves(m: nat, text: string, s: nat, e: nat, input: string)
    requires s < e <= |text|
    ensures MarkAfter(m, text, s, e, input)
         == if m <= s then m else if m <= e then s else m - (e - s) + |input|
  {
  }

  // ----- the checker

  /** A word that the user is asked about. */
  datatype Misspelling = Misspelling(word: string, at: nat, upto: nat, suggestions: seq<string>)

  class Checker {
    const buffer: EditorBuffer
    var localDict: set<string>
    var current: Option<Misspelling>

    constructor (buffer: EditorBuffer)
      ensures this.buffer == buffer && current == None && localDict == {}
    {
      this.buffer, current, localDict := buffer, None, {};
    }

    /** Puts `input` in the place of the current word, and moves the marks along. */
    method ReplaceCurrent(input: string)
      requires current.Some? && current.value.at <= |buffer.text| && current.value.upto <= |buffer.text|
      modifies buffer
      ensures var (at, upto) := (current.value.at, current.value.upto);
        && buffer.text == TextAfter(old(buffer.text), at, upto, input) && |buffer.marks| == |old(buffer.marks)|
        && forall i :: 0 <= i < |buffer.marks| ==>
             buffer.marks[i] == MarkAfter(old(buffer.marks[i]), old(buffer.text), at, upto, input)
    {
      var start := current.value.at;
      buffer.Delete(start, buffer.Move(current.value.upto, -1));
      buffer.Insert(start, input);
    }

    /** The state after the first `n` reports about a line have been dealt with. */
    ghost predicate Reached(l: Line, n: nat, adjust: int, nextLine: nat)
      reads this, buffer
      requires n <= |l.reports|
    {
      && localDict == Accepted(l.reports, l.answers, n) && nextLine < |buffer.marks|
      && Progress(buffer.text, adjust, buffer.marks[nextLine]) == l.Process(n)
    }

    /**
     Asks about one word and does what the answer says. How much longer the line has become is
     read off a mark one character behind the word.
     */
    method Ask(ghost l: Line, ghost n: nat, start: nat, report: Report, answer: Answer, offsetAdjust: int,
               ghost nextLine: nat)
      returns (adjust: int)
      requires n < |l.reports| && start == |l.before| && report == l.reports[n] && answer == l.answers(n)
      requires report.Miss? && answer != Cancel && report.word !in localDict && Reached(l, n, offsetAdjust, nextLine)
      modifies this, buffer
      ensures Reached(l, n + 1, adjust, nextLine)
      ensures current.Some? && current.value.word == report.word && current.value.suggestions == report.suggestions
      ensures l.Valid() && l.AllPlaced(n + 1) ==>
                var (at, upto) := (current.value.at, current.value.upto);
                at <= upto <= |old(buffer.text)| && old(buffer.text)[at..upto] == report.word
    {
      if l.Valid() && l.AllPlaced(n + 1) { l.CurrentIsWord(n); }
      var s := buffer.Move(buffer.Move(buffer.Move(start, -1), offsetAdjust), report.offset);
      var e := buffer.Move(s, |report.word|);
      var eMark := buffer.CreateMark(buffer.Move(e, 1));
      current := Some(Misspelling(report.word, s, e, report.suggestions));
      match answer {
        case Replace(input) =>
          ReplaceCurrent(input);
        case Accept =>
          localDict := localDict + {report.word};
        case Skip =>
        case Cancel =>
      }
      adjust := offsetAdjust + buffer.marks[eMark] - e - 1;
    }

    /**
     Goes through what is reported about the line at `start`. The positions are in the original
     line; what the replacements so far have added is taken from a mark behind each word. As long
     as every move stays within the buffer, the buffer then has all replacements at once, the
     offset is the growth, and the mark is at the next line, but for a word at the end of the buffer.
     */
    method FixLine(start: nat, length: nat, reports: seq<Report>, answers: nat -> Answer)
      returns (n: nat, offsetAdjust: int, nextStart: nat)
      requires start + length <= |buffer.text|
      modifies this, buffer
      ensures n <= |reports| && (n < |reports| ==> Asked(reports, answers, n) && answers(n) == Cancel)
      ensures forall i: nat :: i < n && Asked(reports, answers, i) ==> answers(i) != Cancel
      ensures var l := Line(old(buffer.text[..start]), old(buffer.text[start..start + length]),
                            old(buffer.text[start + length..]), reports, answers);
        && Progress(buffer.text, offsetAdjust, nextStart) == l.Process(n)
        && localDict == Accepted(reports, answers, n)
        && (l.Valid() && l.AllPlaced(n) ==> l.IsRight(Progress(buffer.text, offsetAdjust, nextStart), n))
    {
      ghost var l := Line(buffer.text[..start], buffer.text[start..start + length], buffer.text[start + length..],
                          reports, answers);
      var nextLine := buffer.CreateMark(start + length);
      offsetAdjust := 0;
      localDict := {};
      n := 0;
      assert buffer.text == l.before + l.text + l.after;
      while n < |reports|
        invariant n <= |reports| && Reached(l, n, offsetAdjust, nextLine)
        invariant forall i: nat :: i < n && Asked(reports, answers, i) ==> answers(i) != Cancel
      {
        var report := reports[n];
        if report.Miss? && report.word !in localDict {
          if answers(n) == Cancel { break; }
          offsetAdjust := Ask(l, n, start, report, answers(n), offsetAdjust, nextLine);
        } else {
          PassOver(l, n, offsetAdjust, nextLine);
        }
        hide Reached, Asked;
        n := n + 1;
      }
      nextStart := buffer.marks[nextLine];
      if l.Valid() && l.AllPlaced(n) { l.ProcessIsRight(n); }
      hide *;
    }

    /** Nothing is done about other reports. */
    lemma PassOver(l: Line, n: nat, adjust: int, nextLine: nat)
      requires n < |l.reports| && Reached(l, n, adjust, nextLine) && !Asked(l.reports, l.answers, n)
      ensures Reached(l, n + 1, adjust, nextLine)
    {
    }
  }
}
