/**
 * The monitor's command matcher: an operator's input line is classified
 * against a fixed six-word vocabulary by eliminating, one typed character
 * at a time, every word that disagrees with the input so far.
 */
module Monitor {

  /** The monitor's commands, in the order of the command table. */
  datatype Command = Help | Step | Frame | Run | Dump | Quit

  const ComNo := 6

  /** The command table: word j names command j. */
  const Vocabulary: seq<string> := ["help", "step", "frame", "run", "dump", "quit"]

  /** The table index of a command (the enum's value as an integer). */
  function Index(c: Command): (k: int)
    ensures 0 <= k < ComNo
  {
    match c
    case Help => 0
    case Step => 1
    case Frame => 2
    case Run => 3
    case Dump => 4
    case Quit => 5
  }

  /** The command with table index j (the cast from an index to the enum). */
  function CommandAt(j: int): (c: Command)
    requires 0 <= j < ComNo
    ensures Index(c) == j && Vocabulary[j] == Word(c)
  {
    [Help, Step, Frame, Run, Dump, Quit][j]
  }

  /** The word that names a command: its entry in the command table, which
      names no other command. */
  function Word(c: Command): (w: string)
    ensures w in Vocabulary && |w| > 0
    ensures forall d :: d != c ==> Vocabulary[Index(d)] != w
  {
    Vocabulary[Index(c)]
  }

  /** Character i of word j as a C string holds it: position |word| is the
      NUL terminator, and nothing past it may be read. */
  function CommandChar(j: int, i: int): (ch: char)
    requires 0 <= j < ComNo && 0 <= i <= |Vocabulary[j]|
    ensures ch == '\0' <==> i == |Vocabulary[j]|
  {
    if i < |Vocabulary[j]| then Vocabulary[j][i] else '\0'
  }

  /** Scanning stops at position n: the end of the line, a NUL or a newline.
      The end of the sequence stands for the string's NUL terminator. */
  predicate Ends(input: string, n: int)
    requires 0 <= n <= |input|
    ensures n == |input| ==> Ends(input, n)
    ensures n < |input| ==> (Ends(input, n) <==> input[n] in "\0\n")
  {
    n == |input| || input[n] == '\0' || input[n] == '\n'
  }

  /** Word j is still a candidate once `typed` has been read: every typed
      character equals the word's character at that position. */
  predicate Candidate(typed: string, j: int)
    requires 0 <= j < ComNo
    ensures Candidate(typed, j) <==>
      |typed| <= |Vocabulary[j]| && forall i :: 0 <= i < |typed| ==> typed[i] == Vocabulary[j][i]
  {
    typed <= Vocabulary[j]
  }

  /** A word ruled out stays ruled out however many more characters are read. */
  lemma DroppedStaysDropped(typed: string, more: string, j: int)
    requires 0 <= j < ComNo && !Candidate(typed, j)
    ensures !Candidate(typed + more, j)
  {
  }

  /** The drop flags after reading `typed`: word j is dropped exactly when it
      is no longer a candidate. */
  function Dropped(typed: string): (flags: seq<bool>)
    ensures |flags| == ComNo
    ensures forall j :: 0 <= j < ComNo ==> (flags[j] <==> !Candidate(typed, j))
  {
    seq(ComNo, j requires 0 <= j < ComNo => !Candidate(typed, j))
  }

  /** How many flags are clear, i.e. how many words remain possible. */
  function Remaining(flags: seq<bool>): (n: nat)
    ensures n <= |flags|
  {
    if |flags| == 0 then 0 else (if flags[0] then 0 else 1) + Remaining(flags[1..])
  }

  /** The first clear flag at or after position `from`, or |flags| if none. */
  function FirstClear(flags: seq<bool>, from: nat): (k: nat)
    requires from <= |flags|
    ensures from <= k <= |flags|
    ensures forall k' :: from <= k' < k ==> flags[k']
    ensures k < |flags| ==> !flags[k]
    decreases |flags| - from
  {
    if from == |flags| then from
    else if !flags[from] then from
    else FirstClear(flags, from + 1)
  }

  /** The matcher's decision, given that the first n characters were read
      without the candidates narrowing to one or to none: stop with Help at
      the end of the line; otherwise read character n and return the single
      remaining word's command, Help if no word remains, or read on. */
  function Decide(input: string, n: nat): (r: Command)
    requires n <= |input|
    ensures Ends(input, n) ==> r == Help
    ensures r != Help ==> n < |input| && Candidate(input[..n + 1], Index(r))
    decreases |input| - n
  {
    if Ends(input, n) then Help
    else
      var flags := Dropped(input[..n + 1]);
      if Remaining(flags) == 1 then Survivor(flags)
      else if Remaining(flags) == 0 then Help
      else Decide(input, n + 1)
  }

  /** The command of the one word left: its flag is the only clear one. */
  function Survivor(flags: seq<bool>): (c: Command)
    requires |flags| == ComNo && Remaining(flags) == 1
    ensures !flags[Index(c)]
    ensures forall k :: 0 <= k < ComNo && k != Index(c) ==> flags[k]
  {
    ClearExists(flags);
    OnlyOneClear(flags, FirstClear(flags, 0));
    CommandAt(FirstClear(flags, 0))
  }

  /** The command an input line selects. */
  function Classify(input: string): (r: Command)
    ensures Ends(input, 0) ==> r == Help
    ensures r != Help ==> 0 < |input| && Candidate(input[..1], Index(r))
  {
    Decide(input, 0)
  }

  /** Clearing no flag and setting a clear one removes exactly one remaining word. */
  lemma {:induction false} RemainingAfterDrop(flags: seq<bool>, j: int)
    requires 0 <= j < |flags| && !flags[j]
    ensures Remaining(flags[j := true]) == Remaining(flags) - 1
    decreases |flags|
  {
    if j > 0 {
      assert flags[j := true][1..] == flags[1..][j - 1 := true];
      RemainingAfterDrop(flags[1..], j - 1);
    } else {
      assert flags[j := true][1..] == flags[1..];
    }
  }

  /** If every flag is set, no word remains. */
  lemma {:induction false} NoneRemaining(flags: seq<bool>)
    requires forall k :: 0 <= k < |flags| ==> flags[k]
    ensures Remaining(flags) == 0
    decreases |flags|
  {
    if |flags| > 0 {
      NoneRemaining(flags[1..]);
    }
  }

  /** If some word remains, there is a first clear flag. */
  lemma ClearExists(flags: seq<bool>)
    requires Remaining(flags) > 0
    ensures FirstClear(flags, 0) < |flags|
  {
    if FirstClear(flags, 0) == |flags| {
      NoneRemaining(flags);
    }
  }

  /** If no word remains, every flag is set. */
  lemma {:induction false} NoneClear(flags: seq<bool>)
    requires Remaining(flags) == 0
    ensures forall k :: 0 <= k < |flags| ==> flags[k]
    decreases |flags|
  {
    if |flags| > 0 {
      NoneClear(flags[1..]);
      forall k | 0 < k < |flags|
        ensures flags[k]
      {
        assert flags[k] == flags[1..][k - 1];
      }
    }
  }

  /** If exactly one word remains and flag k is clear, every other flag is set. */
  lemma {:induction false} OnlyOneClear(flags: seq<bool>, k: int)
    requires Remaining(flags) == 1 && 0 <= k < |flags| && !flags[k]
    ensures forall k' :: 0 <= k' < |flags| && k' != k ==> flags[k']
    decreases |flags|
  {
    if k == 0 {
      NoneClear(flags[1..]);
      forall k' | 0 < k' < |flags|
        ensures flags[k']
      {
        assert flags[k'] == flags[1..][k' - 1];
      }
    } else {
      assert flags[k] == flags[1..][k - 1];
      if !flags[0] {
        NoneClear(flags[1..]);
        assert false;
      }
      OnlyOneClear(flags[1..], k - 1);
      forall k' | 0 < k' < |flags| && k' != k
        ensures flags[k']
      {
        assert flags[k'] == flags[1..][k' - 1];
      }
    }
  }

  /** With no flag set, every word remains. */
  lemma {:induction false} AllRemaining(flags: seq<bool>)
    requires forall k :: 0 <= k < |flags| ==> !flags[k]
    ensures Remaining(flags) == |flags|
    decreases |flags|
  {
    if |flags| > 0 {
      AllRemaining(flags[1..]);
    }
  }

  /** Word j survives one more character exactly when it survived so far and
      its next character (NUL once it has ended) equals that character; a
      surviving word has not been read past its terminator. */
  lemma CandidateStep(input: string, i: int, j: int)
    requires 0 <= i < |input| && 0 <= j < ComNo && input[i] != '\0'
    ensures Candidate(input[..i], j) ==> i <= |Vocabulary[j]|
    ensures Candidate(input[..i + 1], j) <==>
      Candidate(input[..i], j) && CommandChar(j, i) == input[i]
  {
    var w := Vocabulary[j];
    assert input[..i + 1] == input[..i] + [input[i]];
    if Candidate(input[..i], j) && i < |w| && w[i] == input[i] {
      assert w[..i + 1] == w[..i] + [w[i]];
    }
  }

  /** The inner loop of the matcher for character i: every word still
      possible whose character i (NUL once it has ended) differs from the
      input's is flagged and uncounted. */
  method RuleOut(dropCommand: array<bool>, input: string, i: int, possibleCommands: int)
    returns (remaining: int)
    requires dropCommand.Length == ComNo && 0 <= i < |input| && input[i] != '\0'
    requires dropCommand[..] == Dropped(input[..i]) && possibleCommands == Remaining(dropCommand[..])
    modifies dropCommand
    ensures dropCommand[..] == Dropped(input[..i + 1]) && remaining == Remaining(dropCommand[..])
  {
    remaining := possibleCommands;
    for j := 0 to ComNo
      invariant forall k :: 0 <= k < j ==> (dropCommand[k] <==> !Candidate(input[..i + 1], k))
      invariant forall k :: j <= k < ComNo ==> (dropCommand[k] <==> !Candidate(input[..i], k))
      invariant remaining == Remaining(dropCommand[..])
    {
      CandidateStep(input, i, j);
      if dropCommand[j] {
        // already ruled out: a word that stops matching never matches again
        continue;
      }
      if CommandChar(j, i) != '\0' && CommandChar(j, i) == input[i] {
        continue;
      }
      RemainingAfterDrop(dropCommand[..], j);
      dropCommand[j] := true;
      remaining := remaining - 1;
    }
    assert dropCommand[..] == Dropped(input[..i + 1]);
  }

  /** The matcher as the monitor runs it: `dropCommand` flags each word
      ruled out so far, `possibleCommands` counts the others. It returns as
      soon as one word remains, Help as soon as none does, and Help when the
      line ends undecided. */
  method LazyMatch(input: string) returns (r: Command)
    ensures r == Classify(input)
  {
    var dropCommand := new bool[ComNo](_ => false);
    var possibleCommands := ComNo;
    AllRemaining(dropCommand[..]);
    assert dropCommand[..] == Dropped(input[..0]);

    var i := 0;
    while i < |input| && input[i] != '\0' && input[i] != '\n'
      invariant 0 <= i <= |input|
      invariant dropCommand[..] == Dropped(input[..i])
      invariant possibleCommands == Remaining(dropCommand[..])
      invariant Decide(input, i) == Classify(input)
      decreases |input| - i
    {
      possibleCommands := RuleOut(dropCommand, input, i, possibleCommands);

      if possibleCommands == 1 {
        for k := 0 to ComNo
          invariant forall k' :: 0 <= k' < k ==> dropCommand[k']
          invariant FirstClear(dropCommand[..], 0) == FirstClear(dropCommand[..], k)
        {
          if !dropCommand[k] {
            return CommandAt(k);
          }
        }
        assert false;
      }
      if possibleCommands == 0 {
        return Help;
      }
      i := i + 1;
    }
    return Help;
  }

  /** The result when the line ends before its first character: Help. */
  lemma EmptyLineIsHelp(input: string)
    requires |input| == 0 || input[0] == '\0' || input[0] == '\n'
    ensures Classify(input) == Help
  {
  }

  /** No two words share their first letter. */
  lemma FirstLettersDistinct(j: int, k: int)
    requires 0 <= j < ComNo && 0 <= k < ComNo && j != k
    ensures Vocabulary[j][0] != Vocabulary[k][0]
  {
  }

  /** The command whose word starts with `ch`, if there is one; Help for any
      other first character. */
  function ByFirstLetter(ch: char): Command
  {
    match ch
    case 'h' => Help
    case 's' => Step
    case 'f' => Frame
    case 'r' => Run
    case 'd' => Dump
    case 'q' => Quit
    case _ => Help
  }

  /** After one character, the words still possible are those starting with it. */
  lemma OneCharCandidates(ch: char, j: int)
    requires 0 <= j < ComNo
    ensures Candidate([ch], j) <==> Vocabulary[j][0] == ch
  {
  }

  /** The drop flags after one character: word j is dropped exactly when it
      does not begin with that character. */
  lemma {:induction false} FirstCharFlags(ch: char)
    ensures Dropped([ch]) == [ch != 'h', ch != 's', ch != 'f', ch != 'r', ch != 'd', ch != 'q']
  {
    forall j | 0 <= j < ComNo
      ensures Dropped([ch])[j] <==> Vocabulary[j][0] != ch
    {
      OneCharCandidates(ch, j);
    }
  }

  /** After one character, exactly one word remains if the character is the
      first letter of a word, and that word's command is selected; otherwise
      no word remains. */
  lemma {:induction false} FirstCharOutcome(ch: char)
    ensures ch in "hsfrdq" ==>
      Remaining(Dropped([ch])) == 1 && Survivor(Dropped([ch])) == ByFirstLetter(ch)
    ensures ch !in "hsfrdq" ==> Remaining(Dropped([ch])) == 0
  {
    FirstCharFlags(ch);
    if ch == 'h' {
      assert Remaining([false, true, true, true, true, true]) == 1;
    } else if ch == 's' {
      assert Remaining([true, false, true, true, true, true]) == 1;
    } else if ch == 'f' {
      assert Remaining([true, true, false, true, true, true]) == 1;
    } else if ch == 'r' {
      assert Remaining([true, true, true, false, true, true]) == 1;
    } else if ch == 'd' {
      assert Remaining([true, true, true, true, false, true]) == 1;
    } else if ch == 'q' {
      assert Remaining([true, true, true, true, true, false]) == 1;
    } else {
      assert Remaining([true, true, true, true, true, true]) == 0;
    }
  }

  /** Closed form: the first character alone decides. Help for an empty line
      and for any first character no word begins with; otherwise the command
      whose word begins with it, whatever follows. */
  lemma {:induction false} ClassifyByFirstLetter(input: string)
    ensures Classify(input) == if Ends(input, 0) then Help else ByFirstLetter(input[0])
  {
    if !Ends(input, 0) {
      assert input[..1] == [input[0]];
      FirstCharOutcome(input[0]);
    }
  }

  /** A command other than Help is selected only by a line whose first
      character is the first letter of that command's word. */
  lemma ClassifySound(input: string)
    requires Classify(input) != Help
    ensures |input| > 0 && Word(Classify(input))[0] == input[0]
  {
    ClassifyByFirstLetter(input);
  }

  /** Characters from the first terminator on never affect the result: two
      lines that agree up to a terminator at the same position are
      classified alike. */
  lemma {:induction false} ClassifyIgnoresRest(input: string, other: string, n: nat)
    requires n <= |input| && n <= |other| && input[..n] == other[..n]
    requires Ends(input, n) && Ends(other, n)
    ensures Classify(input) == Classify(other)
  {
    DecideIgnoresRest(input, other, n, 0);
  }

  lemma {:induction false} DecideIgnoresRest(input: string, other: string, n: nat, m: nat)
    requires m <= n <= |input| && n <= |other| && input[..n] == other[..n]
    requires Ends(input, n) && Ends(other, n)
    ensures Decide(input, m) == Decide(other, m)
    decreases n - m
  {
    if m < n {
      assert input[m] == input[..n][m] && other[m] == other[..n][m];
      assert input[..m + 1] == input[..n][..m + 1] && other[..m + 1] == other[..n][..m + 1];
      if !Ends(input, m) {
        DecideIgnoresRest(input, other, n, m + 1);
      }
    }
  }

  /** Any line starting with "s" selects Step, whatever follows: "s", "st"
      and "stxyz" alike, since the rest of the line is never read. */
  lemma StepExamples(rest: string)
    ensures Classify("s" + rest) == Step
  {
    ClassifyByFirstLetter("s" + rest);
  }

  /** "h" selects Help as a command. */
  lemma HelpExample(rest: string)
    ensures Classify("h" + rest) == Help
  {
    ClassifyByFirstLetter("h" + rest);
  }

  /** After "z" no word remains, so "zzz" or anything else starting with
      "z" falls back to Help. */
  lemma NoMatchExample(rest: string)
    ensures Remaining(Dropped("z")) == 0
    ensures Classify("z" + rest) == Help
  {
    FirstCharOutcome('z');
    ClassifyByFirstLetter("z" + rest);
  }

  /** The empty line and a line starting with a newline fall back to Help. */
  lemma EmptyExamples(rest: string)
    ensures Classify("") == Help && Classify("\n" + rest) == Help
  {
  }

  /** "quit" with its newline, or any abbreviation of it, selects Quit. */
  lemma QuitExample(rest: string)
    ensures Classify("q" + rest) == Quit
  {
    ClassifyByFirstLetter("q" + rest);
  }
}
