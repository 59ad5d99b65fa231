/** The read loop of `main` (main.go:80-127): every line typed on standard
    input is classified, a fenced block is sent exactly as typed, the quit
    lines end the loop, and any other line is rewritten by the command pass
    and the mention pass and sent when something is left. */
module Session {
  import opened Wrappers
  import opened Text

  /** The marker that opens and closes a verbatim block. */
  const Fence: string := "```"

  /** `s` holds the fence somewhere. */
  predicate ContainsFence(s: string)
    decreases |s|
  {
    |s| >= 3 && ((s[0] == '`' && s[1] == '`' && s[2] == '`') || ContainsFence(s[1..]))
  }

  /** `ContainsFence` is the test `strings.Index(s, "```") != -1` of main.go:95. */
  lemma {:induction false} ContainsFenceIndex(s: string)
    ensures ContainsFence(s) <==> IndexOf(s, Fence) != -1
    decreases |s|
  {
    if |s| > 0 {
      ContainsFenceIndex(s[1..]);
      assert HasPrefix(s, Fence) <==> |s| >= 3 && s[0] == '`' && s[1] == '`' && s[2] == '`' by {
        if |s| >= 3 {
          assert s[..3] == [s[0], s[1], s[2]];
        }
      }
      IndexOfSpec(s[1..], Fence);
    }
  }

  predicate NoNewline(s: string) {
    forall k :: 0 <= k < |s| ==> s[k] != '\n'
  }

  /** A complete physical line: it ends with its only newline. */
  predicate IsLine(l: string) {
    |l| > 0 && l[|l| - 1] == '\n' && NoNewline(l[..|l| - 1])
  }

  /** The result of one `bufio.Reader.ReadString('\n')`: the bytes up to and
      including the next newline, or, flagged `eof`, whatever is left. */
  datatype Read = Read(line: string, eof: bool)

  /** The position of the first newline at or after `pos`, or the end of the input. */
  function LineEnd(input: string, pos: nat): (e: nat)
    requires pos <= |input|
    ensures pos <= e <= |input|
    ensures e < |input| ==> input[e] == '\n'
    decreases |input| - pos
  {
    if pos == |input| || input[pos] == '\n' then pos else LineEnd(input, pos + 1)
  }

  /** No newline comes before `LineEnd`. */
  lemma {:induction false} LineEndFirst(input: string, pos: nat)
    requires pos <= |input|
    ensures NoNewline(input[pos..LineEnd(input, pos)])
    decreases |input| - pos
  {
    if pos < |input| && input[pos] != '\n' {
      LineEndFirst(input, pos + 1);
      assert input[pos..LineEnd(input, pos)] == [input[pos]] + input[pos + 1..LineEnd(input, pos + 1)];
    }
  }

  /** `ReadString('\n')` on the standard input `input`, `pos` bytes in. */
  function ReadString(input: string, pos: nat): (r: Read)
    requires pos <= |input|
  {
    var e := LineEnd(input, pos);
    if e < |input| then Read(input[pos..e + 1], false) else Read(input[pos..], true)
  }

  /** A read is a complete line, or the rest of the input without a newline. */
  lemma ReadStringShape(input: string, pos: nat)
    requires pos <= |input|
    ensures !ReadString(input, pos).eof ==> IsLine(ReadString(input, pos).line)
    ensures ReadString(input, pos).eof ==> NoNewline(ReadString(input, pos).line)
  {
    LineEndFirst(input, pos);
    var e := LineEnd(input, pos);
    if e < |input| {
      assert input[pos..e + 1][..e - pos] == input[pos..e];
    }
  }

  /** A read returns the bytes at `pos`. */
  lemma ReadStringAt(input: string, pos: nat)
    requires pos <= |input|
    ensures pos + |ReadString(input, pos).line| <= |input|
    ensures ReadString(input, pos).line == input[pos..pos + |ReadString(input, pos).line|]
  {
  }

  /** How the loop ended. `Hang` is the unterminated block: after end of
      input the inner loop of main.go:92-98 re-reads "" forever. */
  datatype Exit = EndOfInput | Quit | Hang

  /** The payloads handed to the send call, in order, and how the loop ended. */
  datatype Outcome = Outcome(sent: seq<string>, exit: Exit)

  function Join(before: seq<string>, o: Outcome): Outcome {
    Outcome(before + o.sent, o.exit)
  }

  lemma JoinNothing(o: Outcome)
    ensures Join([], o) == o
  {
    assert [] + o.sent == o.sent;
  }

  lemma JoinJoin(a: seq<string>, b: seq<string>, o: Outcome)
    ensures Join(a, Join(b, o)) == Join(a + b, o)
  {
    assert a + (b + o.sent) == (a + b) + o.sent;
  }

  /** The position after the first read from `pos` on whose bytes contain a
      fence (main.go:92-98); `None` when end of input comes first. */
  function CloseFence(input: string, pos: nat): (r: Option<nat>)
    requires pos <= |input|
    ensures r.Some? ==> pos < r.value <= |input|
    decreases |input| - pos
  {
    var sub := ReadString(input, pos);
    if ContainsFence(sub.line) then Some(pos + |sub.line|)
    else if sub.eof then None
    else CloseFence(input, pos + |sub.line|)
  }

  /** A complete line without a fence passes the search on to the bytes after it. */
  lemma CloseFenceOver(input: string, pos: nat, l: string, next: nat)
    requires pos <= |input| && ReadString(input, pos) == Read(l, false)
    requires !ContainsFence(l) && next == pos + |l|
    ensures CloseFence(input, pos) == CloseFence(input, next)
  {
  }

  /** The search ends at a read with a fence, or at end of input. */
  lemma CloseFenceLast(input: string, pos: nat, l: string, eof: bool)
    requires pos <= |input| && ReadString(input, pos) == Read(l, eof)
    requires eof || ContainsFence(l)
    ensures CloseFence(input, pos) == if ContainsFence(l) then Some(pos + |l|) else None
  {
  }

  /** A read holding a fence ends the search right after it. */
  lemma CloseFenceHit(input: string, pos: nat, l: string, eof: bool, next: nat)
    requires pos <= |input| && ReadString(input, pos) == Read(l, eof)
    requires ContainsFence(l) && next == pos + |l|
    ensures CloseFence(input, pos) == Some(next)
  {
  }

  /** One read of the search for the closer. */
  lemma CloseFenceUnfold(input: string, pos: nat)
    requires pos <= |input|
    ensures var sub := ReadString(input, pos);
      CloseFence(input, pos) ==
        if ContainsFence(sub.line) then Some(pos + |sub.line|)
        else if sub.eof then None
        else CloseFence(input, pos + |sub.line|)
  {
  }

  /** main.go:106-109: drop the last byte (the newline) when there is one. */
  function StripNewline(line: string): string {
    if |line| > 0 then line[..|line| - 1] else line
  }

  /** main.go:112. */
  predicate IsQuit(line: string) {
    line == ":q" || line == ""
  }

  /** The sends of one turn of the loop: none, or the one payload. */
  function Sends(payload: Option<string>): seq<string> {
    if payload.Some? then [payload.value] else []
  }

  /** What one turn of the loop does: stop with an exit, or go on reading
      at `next` after sending `payload`, if any. */
  datatype Step = Stop(exit: Exit) | Go(payload: Option<string>, next: nat)

  /** One turn of the loop of main.go:81-126 from byte `pos`. `commands`
      stands for `ParseForCommands` and `mentions` for `ParseForMentions`. */
  function TurnAt(input: string, pos: nat, commands: string -> string, mentions: string -> string): (s: Step)
    requires pos <= |input|
    ensures s.Go? ==> pos < s.next <= |input|
  {
    var r := ReadString(input, pos);
    if r.eof then Stop(EndOfInput)
    else if HasPrefix(r.line, Fence) then
      match CloseFence(input, pos + |r.line|)
      case None => Stop(Hang)
      case Some(end) => Go(Some(input[pos..end]), end)
    else
      var line := StripNewline(r.line);
      if IsQuit(line) then Stop(Quit)
      else
        var out := mentions(commands(line));
        Go(if out != "" then Some(out) else None, pos + |r.line|)
  }

  /** What the loop sends from byte `pos` of the input on, and how it ends. */
  function Transcript(input: string, pos: nat, commands: string -> string, mentions: string -> string): Outcome
    requires pos <= |input|
    decreases |input| - pos
  {
    match TurnAt(input, pos, commands, mentions)
    case Stop(exit) => Outcome([], exit)
    case Go(payload, next) => Join(Sends(payload), Transcript(input, next, commands, mentions))
  }

  /** A turn on a line that opens a block. */
  lemma TurnAtBlock(input: string, pos: nat, commands: string -> string, mentions: string -> string, line: string, after: nat)
    requires pos <= |input| && ReadString(input, pos) == Read(line, false)
    requires HasPrefix(line, Fence) && after == pos + |line|
    ensures after <= |input|
    ensures var c := CloseFence(input, after);
      TurnAt(input, pos, commands, mentions) == if c.Some? then Go(Some(input[pos..c.value]), c.value) else Stop(Hang)
  {
  }

  /** A turn on a complete line that does not open a block. */
  lemma TurnAtPlain(input: string, pos: nat, commands: string -> string, mentions: string -> string)
    requires pos <= |input|
    requires !ReadString(input, pos).eof && !HasPrefix(ReadString(input, pos).line, Fence)
    ensures var line := ReadString(input, pos).line;
      var text := StripNewline(line);
      var out := mentions(commands(text));
      TurnAt(input, pos, commands, mentions) ==
        if IsQuit(text) then Stop(Quit) else Go(if out != "" then Some(out) else None, pos + |line|)
  {
  }

  /** The line printed when a send fails (main.go:101 and main.go:124). */
  function ErrorLine(err: string): string {
    "Error: " + err + "\n"
  }

  /** What the first `n` sends print, when `transport(k)` is the error, if
      any, that the `k`-th send returns. */
  function ErrorReport(transport: nat -> Option<string>, n: nat): seq<string> {
    if n == 0 then []
    else
      ErrorReport(transport, n - 1) +
      match transport(n - 1)
      case Some(err) => [ErrorLine(err)]
      case None => []
  }

  /** The send of main.go:99-102 and main.go:122-125: record the payload
      and print the error the transport returns, if any. */
  method Dispatch(sent: seq<string>, printed: seq<string>, payload: string, transport: nat -> Option<string>)
    returns (sent': seq<string>, printed': seq<string>)
    requires printed == ErrorReport(transport, |sent|)
    ensures sent' == sent + [payload]
    ensures printed' == ErrorReport(transport, |sent'|)
  {
    sent' := sent + [payload];
    printed' := printed;
    var err := transport(|sent'| - 1);
    if err.Some? {
      printed' := printed' + [ErrorLine(err.value)];
    }
  }

  /** What one read of the inner loop adds to the block, and what it
      leaves of the search for the closer. */
  lemma BlockStep(input: string, start: nat, pos: nat)
    requires start <= pos <= |input|
    ensures var sub := ReadString(input, pos);
      pos + |sub.line| <= |input| && input[start..pos + |sub.line|] == input[start..pos] + sub.line
    ensures var sub := ReadString(input, pos);
      IndexOf(sub.line, Fence) != -1 ==> CloseFence(input, pos) == Some(pos + |sub.line|)
    ensures var sub := ReadString(input, pos);
      IndexOf(sub.line, Fence) == -1 && sub.eof ==> CloseFence(input, pos) == None
    ensures var sub := ReadString(input, pos);
      IndexOf(sub.line, Fence) == -1 && !sub.eof ==> CloseFence(input, pos) == CloseFence(input, pos + |sub.line|)
  {
    var sub := ReadString(input, pos);
    ReadStringAt(input, pos);
    SliceJoin(input, start, pos, pos + |sub.line|);
    CloseFenceUnfold(input, pos);
    ContainsFenceIndex(sub.line);
  }

  /** The inner loop of main.go:92-98: append reads to the opener `line`
      (the bytes `input[start..pos]`) until one holds a fence. `closed` is
      false when end of input comes first, where the source spins. */
  method ReadBlock(input: string, start: nat, pos: nat, line: string) returns (block: string, end: nat, closed: bool)
    requires start < pos <= |input| && line == input[start..pos]
    ensures closed <==> CloseFence(input, pos).Some?
    ensures closed ==> end == CloseFence(input, pos).value && block == input[start..end]
  {
    block, end := line, pos;
    var eof := false;
    closed := false;
    while !closed && !eof
      invariant pos <= end <= |input|
      invariant block == input[start..end]
      invariant closed ==> CloseFence(input, pos) == Some(end)
      invariant !closed && eof ==> CloseFence(input, pos) == None
      invariant !closed && !eof ==> CloseFence(input, pos) == CloseFence(input, end)
      decreases |input| - end, if eof || closed then 0 else 1
    {
      var sub := ReadString(input, end);
      BlockStep(input, start, end);
      block := block + sub.line;
      end := end + |sub.line|;
      closed := IndexOf(sub.line, Fence) != -1;
      eof := sub.eof;
    }
  }

  /** One turn of the loop of main.go:81-126: read a line and either stop,
      or say what to send and where the next turn reads. */
  method Turn(input: string, pos: nat, commands: string -> string, mentions: string -> string)
    returns (step: Step)
    requires pos <= |input|
    ensures step == TurnAt(input, pos, commands, mentions)
  {
    var r := ReadString(input, pos);
    if r.eof {
      return Stop(EndOfInput);
    }
    var line := r.line;
    var next := pos + |line|;

    if HasPrefix(line, Fence) {
      var closed;
      line, next, closed := ReadBlock(input, pos, next, line);
      if !closed {
        return Stop(Hang);
      }
      return Go(Some(line), next);
    }

    line := StripNewline(line);
    if IsQuit(line) {
      return Stop(Quit);
    }
    line := commands(line);
    line := mentions(line);
    return Go(if line != "" then Some(line) else None, next);
  }

  /** The loop of main.go:80-127. */
  method Run(input: string, commands: string -> string, mentions: string -> string, transport: nat -> Option<string>)
    returns (sent: seq<string>, printed: seq<string>, exit: Exit)
    ensures Outcome(sent, exit) == Transcript(input, 0, commands, mentions)
    ensures printed == ErrorReport(transport, |sent|)
  {
    var pos := 0;
    sent, printed := [], [];
    JoinNothing(Transcript(input, 0, commands, mentions));
    while true
      invariant pos <= |input|
      invariant Transcript(input, 0, commands, mentions) == Join(sent, Transcript(input, pos, commands, mentions))
      invariant printed == ErrorReport(transport, |sent|)
      decreases |input| - pos
    {
      var step := Turn(input, pos, commands, mentions);
      if step.Stop? {
        JoinNothing(Outcome([], step.exit));
        assert sent + [] == sent;
        exit := step.exit;
        return;
      }
      var next := step.next;
      JoinJoin(sent, Sends(step.payload), Transcript(input, next, commands, mentions));
      if step.payload.Some? {
        sent, printed := Dispatch(sent, printed, step.payload.value, transport);
      } else {
        assert sent + [] == sent;
      }
      pos := next;
    }
  }

  // Reading physical lines.

  /** The bytes at `pos` of `input` begin with `l`. */
  predicate At(input: string, pos: nat, l: string) {
    pos + |l| <= |input| && input[pos..pos + |l|] == l
  }

  /** A complete line at `pos` is read as itself. */
  lemma {:induction false} ReadsLine(input: string, pos: nat, l: string)
    requires IsLine(l) && At(input, pos, l)
    ensures ReadString(input, pos) == Read(l, false)
    decreases |l|
  {
    assert input[pos] == l[0];
    if l[0] != '\n' {
      var m := l[1..];
      assert m[..|m| - 1] == l[..|l| - 1][1..];
      assert input[pos + 1..pos + 1 + |m|] == m;
      ReadsLine(input, pos + 1, m);
      assert l == [l[0]] + m;
    }
  }

  /** A rest of the input with no newline is read, flagged end of input, as itself. */
  lemma {:induction false} ReadsTail(input: string, pos: nat)
    requires pos <= |input| && NoNewline(input[pos..])
    ensures ReadString(input, pos) == Read(input[pos..], true)
    decreases |input| - pos
  {
    if pos < |input| {
      assert input[pos..][0] == input[pos];
      assert input[pos + 1..] == input[pos..][1..];
      ReadsTail(input, pos + 1);
      assert input[pos..] == [input[pos]] + input[pos + 1..];
    }
  }

  /** An unterminated last line is read but never sent: the loop ends on
      the end of the input first. */
  lemma ScenarioUnterminatedLast(commands: string -> string, mentions: string -> string)
    ensures var out := mentions(commands("hi"));
      Transcript("hi\nbye", 0, commands, mentions) == Outcome(if out != "" then [out] else [], EndOfInput)
  {
    var input := "hi\nbye";
    assert input[0..3] == "hi\n";
    ReadsLine(input, 0, "hi\n");
    assert input[3..] == "bye";
    ReadsTail(input, 3);
    TurnAtPlain(input, 0, commands, mentions);
    assert StripNewline("hi\n") == "hi";
  }
}
