/** Splitting the text of a schema into SQL statements. */
module StatementReader {

  /** Tab, line feed, vertical tab, form feed, carriage return or space, which are next to each other but for the
      last. */
  predicate White(c: char) {
    '\t' <= c <= '\r' || c == ' '
  }

  predicate AllWhite(s: string) {
    forall i :: 0 <= i < |s| ==> White(s[i])
  }

  /** `find_first_not_of` from `from` on, with the length for "not found". */
  function FirstNonWhite(s: string, from: nat): (i: nat)
    requires from <= |s|
    ensures from <= i <= |s| && (forall k :: from <= k < i ==> White(s[k])) && (i < |s| ==> !White(s[i]))
    decreases |s| - from
  {
    if from < |s| && White(s[from]) then FirstNonWhite(s, from + 1) else from
  }

  /** One past `find_last_not_of` before `to`, with 0 for "not found". */
  function AfterLastNonWhite(s: string, to: nat): (i: nat)
    requires to <= |s|
    ensures i <= to && (forall k :: i <= k < to ==> White(s[k])) && (i > 0 ==> !White(s[i - 1]))
  {
    if to > 0 && White(s[to - 1]) then AfterLastNonWhite(s, to - 1) else to
  }

  function TrimString(s: string): string {
    var begin, end := FirstNonWhite(s, 0), AfterLastNonWhite(s, |s|);
    if begin < |s| then s[begin..end] else []
  }

  predicate Trimmed(s: string) {
    s != [] ==> !White(s[0]) && !White(s[|s| - 1])
  }

  /** Whatever white space surrounds it, trimming finds the same text. */
  lemma {:induction false} TrimFindsText(before: string, s: string, after: string)
    requires AllWhite(before) && AllWhite(after) && Trimmed(s)
    ensures TrimString(before + s + after) == s
  {
    var text := before + s + after;
    var begin, end := FirstNonWhite(text, 0), AfterLastNonWhite(text, |text|);
    if s == [] {
      assert AllWhite(text);
    } else {
      assert text[|before|] == s[0] && text[|before| + |s| - 1] == s[|s| - 1];
      assert begin == |before| && end == |before| + |s|;
    }
  }

  /** Trimming takes white space off both ends and nothing else. */
  lemma {:induction false} TrimTakesWhite(s: string) returns (before: string, after: string)
    ensures s == before + TrimString(s) + after && AllWhite(before) && AllWhite(after) && Trimmed(TrimString(s))
  {
    var begin, end := FirstNonWhite(s, 0), AfterLastNonWhite(s, |s|);
    if begin == |s| {
      before, after := s, [];
      assert s[..|s|] == s;
    } else {
      assert begin < end;
      before, after := s[..begin], s[end..];
    }
  }

  // ----- splitting -----

  predicate NoSemicolon(s: string) {
    ';' !in s
  }

  /** `text.find(';', from)`, with the length for "not found". */
  function FindSemicolon(text: string, from: nat): (k: nat)
    requires from <= |text|
    ensures from <= k <= |text| && (forall i :: from <= i < k ==> text[i] != ';') && (k < |text| ==> text[k] == ';')
    decreases |text| - from
  {
    if from < |text| && text[from] != ';' then FindSemicolon(text, from + 1) else from
  }

  function Terminated(ss: seq<string>): seq<string> {
    seq(|ss|, i requires 0 <= i < |ss| => ss[i] + ";")
  }

  function Joined(ss: seq<string>): string {
    if ss == [] then "" else ss[0] + Joined(ss[1..])
  }

  function Trims(pieces: seq<string>): seq<string> {
    seq(|pieces|, i requires 0 <= i < |pieces| => TrimString(pieces[i]))
  }

  function NonEmpty(s: string): seq<string> {
    if s == [] then [] else [s]
  }

  function KeepNonEmpty(ss: seq<string>): seq<string> {
    if ss == [] then [] else NonEmpty(ss[0]) + KeepNonEmpty(ss[1..])
  }

  /** The trimmed, non-empty statements among the pieces of a text. */
  function StatementsOf(pieces: seq<string>): seq<string> {
    KeepNonEmpty(Trims(pieces))
  }

  ghost predicate SemicolonFree(pieces: seq<string>) {
    forall i :: 0 <= i < |pieces| ==> NoSemicolon(pieces[i])
  }

  /** `text` is `pieces`, each ended by a semicolon, and a `tail` that none ends. */
  ghost predicate CutInto(text: string, pieces: seq<string>, tail: string) {
    text == Joined(Terminated(pieces)) + tail && SemicolonFree(pieces) && NoSemicolon(tail)
  }

  lemma {:induction false} JoinedAppend(a: seq<string>, s: string)
    ensures Joined(a + [s]) == Joined(a) + s
  {
    if a == [] {
      assert a + [s] == [s] && [s][1..] == [];
    } else {
      assert (a + [s])[1..] == a[1..] + [s];
      JoinedAppend(a[1..], s);
    }
  }

  lemma {:induction false} KeepAppend(ss: seq<string>, s: string)
    ensures KeepNonEmpty(ss + [s]) == KeepNonEmpty(ss) + NonEmpty(s)
  {
    if ss == [] {
      assert ss + [s] == [s] && [s][1..] == [];
    } else {
      assert (ss + [s])[1..] == ss[1..] + [s] && (ss + [s])[0] == ss[0];
      KeepAppend(ss[1..], s);
      var first, rest, last := NonEmpty(ss[0]), KeepNonEmpty(ss[1..]), NonEmpty(s);
      assert first + (rest + last) == (first + rest) + last;
    }
  }

  lemma {:induction false} TerminatedAppend(pieces: seq<string>, s: string)
    ensures Terminated(pieces + [s]) == Terminated(pieces) + [s + ";"]
    ensures Joined(Terminated(pieces + [s])) == Joined(Terminated(pieces)) + s + ";"
  {
    assert Terminated(pieces + [s]) == Terminated(pieces) + [s + ";"];
    JoinedAppend(Terminated(pieces), s + ";");
  }

  /** A text is cut at its semicolons in one way only. */
  lemma {:induction false} CutIsUnique(text: string, a: seq<string>, s: string, b: seq<string>, t: string)
    requires CutInto(text, a, s) && CutInto(text, b, t)
    ensures a == b && s == t
    decreases |a|
  {
    FirstPiece(text, a, s);
    FirstPiece(text, b, t);
    if a != [] {
      assert a[0] == text[..FindSemicolon(text, 0)] == b[0];
      CutIsUnique(text[|a[0]| + 1..], a[1..], s, b[1..], t);
      assert a == [a[0]] + a[1..] && b == [b[0]] + b[1..];
    }
  }

  lemma {:induction false} FirstPiece(text: string, pieces: seq<string>, tail: string)
    requires CutInto(text, pieces, tail)
    ensures if pieces == [] then text == tail && FindSemicolon(text, 0) == |text|
            else var k := FindSemicolon(text, 0);
              && k == |pieces[0]| < |text| && pieces[0] == text[..k] && CutInto(text[k + 1..], pieces[1..], tail)
  {
    var k := FindSemicolon(text, 0);
    if pieces == [] {
      assert text == tail;
    } else {
      var first, rest := pieces[0], Joined(Terminated(pieces[1..])) + tail;
      assert Terminated(pieces)[1..] == Terminated(pieces[1..]);
      assert text == first + ";" + rest;
      assert text[|first|] == ';';
      assert k == |first|;
      assert text[k + 1..] == rest;
    }
  }

  lemma {:induction false} CutNext(text: string, from: nat, k: nat, pieces: seq<string>)
    requires from <= k < |text| && text[k] == ';' && forall i :: from <= i < k ==> text[i] != ';'
    requires text[..from] == Joined(Terminated(pieces)) && SemicolonFree(pieces)
    ensures var next := pieces + [text[from..k]]; text[..k + 1] == Joined(Terminated(next)) && SemicolonFree(next)
  {
    TerminatedAppend(pieces, text[from..k]);
    assert text[..k + 1] == text[..from] + text[from..k] + ";";
  }

  lemma {:induction false} StatementsNext(pieces: seq<string>, piece: string)
    ensures var s := TrimString(piece);
            Terminated(StatementsOf(pieces + [piece])) ==
            Terminated(StatementsOf(pieces)) + if s == [] then [] else [s + ";"]
  {
    var s := TrimString(piece);
    assert Trims(pieces + [piece]) == Trims(pieces) + [s];
    KeepAppend(Trims(pieces), s);
    if s != [] { TerminatedAppend(StatementsOf(pieces), s); }
  }

  /** The text is cut at its semicolons, and `statements` are its trimmed, non-empty pieces. */
  ghost predicate SplitsInto(text: string, statements: seq<string>) {
    exists pieces, tail :: CutInto(text, pieces, tail) && statements == Terminated(StatementsOf(pieces))
  }

  /** `getAllStatementsFromSchema`. */
  method GetAllStatements(text: string) returns (statements: seq<string>)
    ensures SplitsInto(text, statements)
  {
    statements := [];
    ghost var pieces: seq<string> := [];
    var searchPos, findResult := 0, FindSemicolon(text, 0);
    while findResult < |text|
      invariant searchPos <= findResult <= |text| && findResult == FindSemicolon(text, searchPos)
      invariant text[..searchPos] == Joined(Terminated(pieces)) && SemicolonFree(pieces)
      invariant statements == Terminated(StatementsOf(pieces))
      decreases |text| - searchPos
    {
      var piece := text[searchPos..findResult];
      CutNext(text, searchPos, findResult, pieces);
      StatementsNext(pieces, piece);
      pieces := pieces + [piece];
      var sqlStmt := TrimString(piece);
      if 0 < |sqlStmt| { statements := statements + [sqlStmt + ";"]; }
      searchPos := findResult + 1;
      findResult := FindSemicolon(text, searchPos);
    }
    ghost var tail := text[searchPos..];
    assert text[searchPos..findResult] == tail;
    assert text == text[..searchPos] + tail;
    assert CutInto(text, pieces, tail);
  }

  // ----- laws -----

  /** Every text splits into one list of statements. */
  lemma {:induction false} SplitIsFunction(text: string, a: seq<string>, b: seq<string>)
    requires SplitsInto(text, a) && SplitsInto(text, b)
    ensures a == b
  {
    var p, s :| CutInto(text, p, s) && a == Terminated(StatementsOf(p));
    var q, t :| CutInto(text, q, t) && b == Terminated(StatementsOf(q));
    CutIsUnique(text, p, s, q, t);
  }

  ghost predicate Clean(s: string) {
    s != [] && Trimmed(s) && NoSemicolon(s)
  }

  ghost predicate AllClean(ss: seq<string>) {
    forall i :: 0 <= i < |ss| ==> Clean(ss[i])
  }

  lemma {:induction false} CleanStatements(ss: seq<string>)
    requires AllClean(ss)
    ensures StatementsOf(ss) == ss
  {
    forall i | 0 <= i < |ss| ensures TrimString(ss[i]) == ss[i] {
      TrimKeepsTrimmed(ss[i]);
    }
    assert Trims(ss) == ss;
    AllNonEmpty(ss);
  }

  lemma {:induction false} AllNonEmpty(ss: seq<string>)
    requires forall i :: 0 <= i < |ss| ==> ss[i] != []
    ensures KeepNonEmpty(ss) == ss
  {
    if ss != [] { AllNonEmpty(ss[1..]); }
  }

  lemma {:induction false} KeptAreClean(ss: seq<string>)
    requires forall i :: 0 <= i < |ss| ==> Trimmed(ss[i]) && NoSemicolon(ss[i])
    ensures AllClean(KeepNonEmpty(ss))
  {
    if ss != [] { KeptAreClean(ss[1..]); }
  }

  lemma {:induction false} StatementsAreClean(pieces: seq<string>)
    requires SemicolonFree(pieces)
    ensures AllClean(StatementsOf(pieces))
  {
    forall i | 0 <= i < |pieces| ensures Trimmed(Trims(pieces)[i]) && NoSemicolon(Trims(pieces)[i]) {
      var before, after := TrimTakesWhite(pieces[i]);
      assert NoSemicolon(pieces[i]);
    }
    KeptAreClean(Trims(pieces));
  }

  /** Splitting undoes joining. */
  lemma {:induction false} SplitUndoesJoin(ss: seq<string>, statements: seq<string>)
    requires AllClean(ss)
    ensures SplitsInto(Joined(Terminated(ss)), statements) <==> statements == Terminated(ss)
  {
    CleanStatements(ss);
    assert Joined(Terminated(ss)) + "" == Joined(Terminated(ss));
    assert CutInto(Joined(Terminated(ss)), ss, "");
    if SplitsInto(Joined(Terminated(ss)), statements) {
      SplitIsFunction(Joined(Terminated(ss)), statements, Terminated(ss));
    }
  }

  /** `pieces` are the statements `ss` with white space around each. */
  ghost predicate Pads(pieces: seq<string>, ss: seq<string>, before: seq<string>, after: seq<string>) {
    && |pieces| == |ss| == |before| == |after|
    && forall i :: 0 <= i < |ss| ==> PadsOne(pieces[i], ss[i], before[i], after[i])
  }

  ghost predicate PadsOne(piece: string, s: string, before: string, after: string) {
    piece == before + s + after && AllWhite(before) && AllWhite(after)
  }

  lemma {:induction false} PaddedStatement(piece: string, s: string, before: string, after: string)
    requires PadsOne(piece, s, before, after) && Trimmed(s) && NoSemicolon(s)
    ensures NoSemicolon(piece) && TrimString(piece) == TrimString(s)
  {
    TrimFindsText(before, s, after);
    TrimKeepsTrimmed(s);
    PaddingHasNoSemicolon(before, s, after);
  }

  lemma {:induction false} TrimKeepsTrimmed(s: string)
    requires Trimmed(s)
    ensures TrimString(s) == s
  {
    TrimFindsText("", s, "");
    assert "" + s + "" == s;
  }

  lemma {:induction false} PaddingHasNoSemicolon(before: string, s: string, after: string)
    requires AllWhite(before) && AllWhite(after) && NoSemicolon(s)
    ensures NoSemicolon(before + s + after)
  {
  }

  lemma {:induction false} PaddedStatements(pieces: seq<string>, ss: seq<string>, before: seq<string>,
                                            after: seq<string>)
    requires Pads(pieces, ss, before, after) && forall i :: 0 <= i < |ss| ==> Trimmed(ss[i]) && NoSemicolon(ss[i])
    ensures SemicolonFree(pieces) && StatementsOf(pieces) == StatementsOf(ss)
  {
    forall i | 0 <= i < |ss| ensures NoSemicolon(pieces[i]) && TrimString(pieces[i]) == TrimString(ss[i]) {
      PaddedStatement(pieces[i], ss[i], before[i], after[i]);
    }
    assert Trims(pieces) == Trims(ss);
  }

  /** White space around the statements, empty statements and unterminated text at the end make no difference. */
  lemma {:induction false} LayoutIsIgnored(ss: seq<string>, pieces: seq<string>, before: seq<string>,
                                           after: seq<string>, tail: string, statements: seq<string>)
    requires Pads(pieces, ss, before, after) && NoSemicolon(tail)
    requires forall i :: 0 <= i < |ss| ==> Trimmed(ss[i]) && NoSemicolon(ss[i])
    ensures SplitsInto(Joined(Terminated(pieces)) + tail, statements) <==>
            SplitsInto(Joined(Terminated(ss)), statements)
  {
    PaddedStatements(pieces, ss, before, after);
    var text, plain := Joined(Terminated(pieces)) + tail, Joined(Terminated(ss));
    assert plain + "" == plain;
    assert CutInto(text, pieces, tail) && CutInto(plain, ss, "");
    var result := Terminated(StatementsOf(ss));
    assert SplitsInto(text, result) && SplitsInto(plain, result);
    if SplitsInto(text, statements) { SplitIsFunction(text, statements, result); }
    if SplitsInto(plain, statements) { SplitIsFunction(plain, statements, result); }
  }

  /** Splitting the joined result of a split gives the same list, for every text. */
  lemma {:induction false} SplitJoinSplit(text: string, statements: seq<string>, again: seq<string>)
    requires SplitsInto(text, statements) && SplitsInto(Joined(statements), again)
    ensures again == statements
  {
    var pieces, tail :| CutInto(text, pieces, tail) && statements == Terminated(StatementsOf(pieces));
    StatementsAreClean(pieces);
    SplitUndoesJoin(StatementsOf(pieces), again);
  }

  lemma {:induction false} WhiteIsSpace(c: char)
    ensures White(c) <==> c in {'\t', '\n', '\U{000B}', '\U{000C}', '\r', ' '}
  {
  }

  /** Every statement ends with its only semicolon, and what is before it neither begins nor ends with a space
      character. */
  lemma {:induction false} StatementEdges(text: string, statements: seq<string>, k: nat)
    requires SplitsInto(text, statements) && k < |statements|
    ensures var s := statements[k];
            && |s| >= 2 && s[|s| - 1] == ';' && (forall i :: 0 <= i < |s| - 1 ==> s[i] != ';')
            && s[0] !in {'\t', '\n', '\U{000B}', '\U{000C}', '\r', ' '}
            && s[|s| - 2] !in {'\t', '\n', '\U{000B}', '\U{000C}', '\r', ' '}
  {
    var pieces, tail :| CutInto(text, pieces, tail) && statements == Terminated(StatementsOf(pieces));
    StatementsAreClean(pieces);
    var s := StatementsOf(pieces)[k];
    assert Clean(s) && statements[k] == s + ";";
    WhiteIsSpace(s[0]);
    WhiteIsSpace(s[|s| - 1]);
  }

  /** What is taken off a piece are space characters only, and a piece of nothing else gives no statement. */
  lemma {:induction false} OnlySpacesGo(piece: string) returns (before: string, after: string)
    ensures piece == before + TrimString(piece) + after
    ensures forall c :: c in before || c in after ==> c in {'\t', '\n', '\U{000B}', '\U{000C}', '\r', ' '}
    ensures TrimString(piece) == [] <==>
            forall c :: c in piece ==> c in {'\t', '\n', '\U{000B}', '\U{000C}', '\r', ' '}
  {
    before, after := TrimTakesWhite(piece);
    forall c ensures White(c) <==> c in {'\t', '\n', '\U{000B}', '\U{000C}', '\r', ' '} { WhiteIsSpace(c); }
    if TrimString(piece) != [] { assert TrimString(piece)[0] in piece; }
  }
}
