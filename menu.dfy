/** The menu loop (main): read a line, lower-case it, and dispatch on "1", "2" and "q";
    anything else is ignored and the menu is shown again. */
module Menu {

  /** What one menu line selects. */
  datatype Action = ValidateKey | TestContainer | Quit | Ignore

  /** Lower-casing of one character (ASCII letters; every other character is kept). */
  function LowerChar(c: char): char
  {
    if 'A' <= c <= 'Z' then (c as int - 'A' as int + 'a' as int) as char else c
  }

  /** str.lower(), character by character. */
  function Lower(s: string): (r: string)
    ensures |r| == |s|
    ensures forall k :: 0 <= k < |s| ==> r[k] == LowerChar(s[k])
  {
    if |s| == 0 then "" else [LowerChar(s[0])] + Lower(s[1..])
  }

  /** A lower-cased line is one character long exactly when the line is. */
  lemma LowerSingle(line: string)
    ensures |line| == 1 ==> Lower(line) == [LowerChar(line[0])] && line == [line[0]]
  {
  }

  /** One iteration of the loop: the lower-cased line picks the action. The line is not
      stripped, so " 1" or "1 " is ignored. */
  function Dispatch(line: string): (a: Action)
    ensures a == ValidateKey <==> line == "1"
    ensures a == TestContainer <==> line == "2"
    ensures a == Quit <==> line == "q" || line == "Q"
    ensures a == Ignore <==> line != "1" && line != "2" && line != "q" && line != "Q"
  {
    var choice := Lower(line);
    LowerSingle(line);
    if choice == "1" then ValidateKey
    else if choice == "2" then TestContainer
    else if choice == "q" then Quit
    else Ignore
  }

  /** The checks a session runs, in order, when the user types `lines`: it ends at the
      first line that quits, or when the input runs out. Each line starts at most one check,
      and only the two checks are ever started. */
  function Session(lines: seq<string>): (r: seq<Action>)
    ensures |r| <= |lines|
    ensures forall k :: 0 <= k < |r| ==> r[k] == ValidateKey || r[k] == TestContainer
  {
    if |lines| == 0 then []
    else match Dispatch(lines[0])
      case Quit => []
      case Ignore => Session(lines[1..])
      case a => [a] + Session(lines[1..])
  }

  /** Number of lines read before the loop stops: up to and including the first quit. */
  function LinesRead(lines: seq<string>): (n: nat)
    ensures n <= |lines|
    ensures forall k :: 0 <= k < n - 1 ==> Dispatch(lines[k]) != Quit
    ensures n < |lines| ==> n > 0 && Dispatch(lines[n - 1]) == Quit
  {
    if |lines| == 0 then 0
    else if Dispatch(lines[0]) == Quit then 1
    else 1 + LinesRead(lines[1..])
  }

  /** The loop of main over a finite input: returns the checks it started, how many lines it
      read, and whether it ended on a quit. */
  method RunMenu(lines: seq<string>) returns (started: seq<Action>, read: nat, quit: bool)
    ensures started == Session(lines)
    ensures read == LinesRead(lines)
    ensures quit <==> exists k :: 0 <= k < |lines| && Dispatch(lines[k]) == Quit
    ensures quit ==> Dispatch(lines[read - 1]) == Quit
  {
    started, read, quit := [], 0, false;
    while read < |lines|
      invariant read <= |lines|
      invariant Session(lines) == started + Session(lines[read..])
      invariant LinesRead(lines) == read + LinesRead(lines[read..])
      invariant forall k :: 0 <= k < read ==> Dispatch(lines[k]) != Quit
      invariant !quit
    {
      var choice := Dispatch(lines[read]);
      SessionStep(lines, read);
      read := read + 1;
      if choice == Quit {
        quit := true;
        break;
      } else if choice != Ignore {
        StartedStep(Session(lines), started, choice, Session(lines[read..]));
        started := started + [choice];
      }
    }
    if !quit {
      assert lines[read..] == [];
    }
  }

  /** Proof step of RunMenu: the session and the lines read from line i on, by its action. */
  lemma SessionStep(lines: seq<string>, i: nat)
    requires i < |lines|
    ensures Dispatch(lines[i]) == Quit ==> Session(lines[i..]) == [] && LinesRead(lines[i..]) == 1
    ensures Dispatch(lines[i]) != Quit ==> LinesRead(lines[i..]) == 1 + LinesRead(lines[i + 1..])
    ensures Dispatch(lines[i]) == Ignore ==> Session(lines[i..]) == Session(lines[i + 1..])
    ensures Dispatch(lines[i]) == ValidateKey || Dispatch(lines[i]) == TestContainer ==>
      Session(lines[i..]) == [Dispatch(lines[i])] + Session(lines[i + 1..])
  {
    var rest := lines[i..];
    assert rest[0] == lines[i] && rest[1..] == lines[i + 1..];
  }

  /** Proof step of RunMenu: appending a started check keeps the loop invariant. */
  lemma StartedStep(whole: seq<Action>, started: seq<Action>, a: Action, tail: seq<Action>)
    requires whole == started + ([a] + tail)
    ensures whole == (started + [a]) + tail
  {
  }

  /** Proof step of the session lemmas: Session unfolded once on a leading line. */
  lemma SessionCons(line: string, rest: seq<string>)
    ensures Dispatch(line) == Quit ==> Session([line] + rest) == []
    ensures Dispatch(line) == Ignore ==> Session([line] + rest) == Session(rest)
    ensures Dispatch(line) == ValidateKey || Dispatch(line) == TestContainer ==>
      Session([line] + rest) == [Dispatch(line)] + Session(rest)
  {
    assert ([line] + rest)[0] == line && ([line] + rest)[1..] == rest;
  }

  /** A line that selects nothing changes nothing. */
  lemma {:induction false} IgnoredLineChangesNothing(before: seq<string>, line: string, after: seq<string>)
    requires Dispatch(line) == Ignore
    ensures Session(before + [line] + after) == Session(before + after)
  {
    if |before| == 0 {
      assert before + [line] + after == [line] + after;
      assert before + after == after;
      SessionCons(line, after);
    } else {
      var b, rest := before[0], before[1..];
      assert before + [line] + after == [b] + (rest + [line] + after);
      assert before + after == [b] + (rest + after);
      IgnoredLineChangesNothing(rest, line, after);
      SessionCons(b, rest + [line] + after);
      SessionCons(b, rest + after);
    }
  }

  /** Nothing after a quit is ever run. */
  lemma {:induction false} QuitEndsSession(before: seq<string>, line: string, after: seq<string>)
    requires Dispatch(line) == Quit
    ensures Session(before + [line] + after) == Session(before)
  {
    if |before| == 0 {
      assert before + [line] + after == [line] + after;
      SessionCons(line, after);
    } else {
      var b, rest := before[0], before[1..];
      assert before + [line] + after == [b] + (rest + [line] + after);
      assert before == [b] + rest;
      QuitEndsSession(rest, line, after);
      SessionCons(b, rest + [line] + after);
      SessionCons(b, rest);
    }
  }

  /** "q" and "Q" both quit, at once. */
  lemma QuitIsCaseInsensitive(after: seq<string>)
    ensures Session(["q"] + after) == [] && Session(["Q"] + after) == []
  {
    assert Dispatch("q") == Quit && Dispatch("Q") == Quit;
  }
}
