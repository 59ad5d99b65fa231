/** The read loop seen line by line: standard input split into its
    physical lines, and what the loop of main.go:80-127 does with each of
    them. `Session.Transcript`, which works on the bytes, is proved to
    agree with `Lines.Transcript` on every input. */
module Lines {
  import opened Wrappers
  import opened Text
  import Session

  /** The lines `ls` one after another. */
  function Concat(ls: seq<string>): string {
    if ls == [] then "" else ls[0] + Concat(ls[1..])
  }

  /** The physical lines of an input: each ends with its only newline,
      except that the last may be an unterminated, non-empty rest. */
  predicate Physical(ls: seq<string>) {
    forall i :: 0 <= i < |ls| ==>
      Session.IsLine(ls[i]) || (i == |ls| - 1 && ls[i] != "" && Session.NoNewline(ls[i]))
  }

  /** The first block line at or after `j` that holds a fence; the result
      is the index just after it. */
  function CloseFence(ls: seq<string>, j: nat): (r: Option<nat>)
    requires j <= |ls|
    ensures r.Some? ==> j < r.value <= |ls| && Session.ContainsFence(ls[r.value - 1])
    ensures r.Some? ==> forall k :: j <= k < r.value - 1 ==> !Session.ContainsFence(ls[k])
    ensures r.None? <==> forall k :: j <= k < |ls| ==> !Session.ContainsFence(ls[k])
    decreases |ls| - j
  {
    if j == |ls| then None
    else if Session.ContainsFence(ls[j]) then Some(j + 1)
    else CloseFence(ls, j + 1)
  }

  /** One turn of the loop at line `i`: it stops, or it sends at most one
      message and goes on at line `next`. */
  function LineTurn(ls: seq<string>, i: nat, commands: string -> string, mentions: string -> string): (s: Session.Step)
    requires i <= |ls|
    ensures s.Go? ==> i < s.next <= |ls|
  {
    if i == |ls| || !Session.IsLine(ls[i]) then Session.Stop(Session.EndOfInput)
    else if HasPrefix(ls[i], Session.Fence) then
      match CloseFence(ls, i + 1)
      case None => Session.Stop(Session.Hang)
      case Some(j) => Session.Go(Some(Concat(ls[i..j])), j)
    else
      var text := ls[i][..|ls[i]| - 1];
      if Session.IsQuit(text) then Session.Stop(Session.Quit)
      else
        var out := mentions(commands(text));
        Session.Go(if out != "" then Some(out) else None, i + 1)
  }

  /** What the loop sends from line `i` on, and how it ends. */
  function Transcript(ls: seq<string>, i: nat, commands: string -> string, mentions: string -> string): Session.Outcome
    requires i <= |ls|
    decreases |ls| - i
  {
    match LineTurn(ls, i, commands, mentions)
    case Stop(exit) => Session.Outcome([], exit)
    case Go(payload, next) => Session.Join(Session.Sends(payload), Transcript(ls, next, commands, mentions))
  }

  // Every input is the concatenation of its physical lines.

  /** The physical lines of the bytes of `input` from `pos` on, as the
      successive reads return them. */
  function Split(input: string, pos: nat): seq<string>
    requires pos <= |input|
    decreases |input| - pos
  {
    if pos == |input| then []
    else
      var l := Session.ReadString(input, pos).line;
      assert |l| > 0 by { Session.ReadStringShape(input, pos); }
      [l] + Split(input, pos + |l|)
  }

  lemma {:induction false} SplitConcat(input: string, pos: nat)
    requires pos <= |input|
    ensures Concat(Split(input, pos)) == input[pos..]
    decreases |input| - pos
  {
    if pos < |input| {
      var l := Session.ReadString(input, pos).line;
      var rest := Split(input, pos + |l|);
      assert Split(input, pos) == [l] + rest;
      assert Concat([l] + rest) == l + Concat(rest) by {
        assert ([l] + rest)[1..] == rest;
      }
      SplitConcat(input, pos + |l|);
      assert l == input[pos..pos + |l|];
      SliceSplit(input, pos, pos + |l|);
      assert Concat(Split(input, pos)) == l + input[pos + |l|..];
    }
  }

  lemma {:induction false} SplitPhysical(input: string, pos: nat)
    requires pos <= |input|
    ensures Physical(Split(input, pos))
    decreases |input| - pos
  {
    if pos < |input| {
      var r := Session.ReadString(input, pos);
      Session.ReadStringShape(input, pos);
      var rest := Split(input, pos + |r.line|);
      SplitPhysical(input, pos + |r.line|);
      var ls := Split(input, pos);
      assert ls == [r.line] + rest;
      assert r.eof ==> rest == [];
      forall i | 0 <= i < |ls|
        ensures Session.IsLine(ls[i]) || (i == |ls| - 1 && ls[i] != "" && Session.NoNewline(ls[i]))
      {
        if i > 0 {
          assert ls[i] == rest[i - 1];
        }
      }
    }
  }

  // The offsets of the lines in the input.

  lemma {:induction false} ConcatAppend(a: seq<string>, b: seq<string>)
    ensures Concat(a + b) == Concat(a) + Concat(b)
    decreases |a|
  {
    if a != [] {
      assert (a + b)[0] == a[0];
      assert (a + b)[1..] == a[1..] + b;
      ConcatAppend(a[1..], b);
      assert Concat(a + b) == a[0] + (Concat(a[1..]) + Concat(b));
      assert a[0] + (Concat(a[1..]) + Concat(b)) == (a[0] + Concat(a[1..])) + Concat(b);
    } else {
      assert a + b == b;
    }
  }

  /** Where line `i` begins. */
  function Offset(ls: seq<string>, i: nat): (k: nat)
    requires i <= |ls|
    ensures k <= |Concat(ls)|
  {
    assert ls == ls[..i] + ls[i..];
    ConcatAppend(ls[..i], ls[i..]);
    |Concat(ls[..i])|
  }

  /** The offset of the next line. */
  lemma OffsetNext(ls: seq<string>, i: nat)
    requires i < |ls|
    ensures Offset(ls, i + 1) == Offset(ls, i) + |ls[i]|
  {
    assert ls[..i + 1] == ls[..i] + [ls[i]];
    ConcatAppend(ls[..i], [ls[i]]);
    assert [ls[i]][1..] == [];
  }

  /** The bytes between two offsets are the lines between them. */
  lemma Between(ls: seq<string>, i: nat, j: nat)
    requires i <= j <= |ls|
    ensures Offset(ls, i) <= Offset(ls, j) <= |Concat(ls)|
    ensures Concat(ls)[Offset(ls, i)..Offset(ls, j)] == Concat(ls[i..j])
  {
    var x, y, z := Concat(ls[..i]), Concat(ls[i..j]), Concat(ls[j..]);
    assert Concat(ls[..j]) == x + y by {
      assert ls[..j] == ls[..i] + ls[i..j];
      ConcatAppend(ls[..i], ls[i..j]);
    }
    assert Concat(ls) == (x + y) + z by {
      assert ls == ls[..j] + ls[j..];
      ConcatAppend(ls[..j], ls[j..]);
    }
    assert ((x + y) + z)[|x|..|x| + |y|] == y;
  }

  /** Line `i` is the bytes from its offset to the next. */
  lemma LineAt(ls: seq<string>, i: nat)
    requires i < |ls|
    ensures Offset(ls, i + 1) == Offset(ls, i) + |ls[i]|
    ensures Session.At(Concat(ls), Offset(ls, i), ls[i])
  {
    OffsetNext(ls, i);
    Between(ls, i, i + 1);
    assert Concat(ls[i..i + 1]) == ls[i] by {
      assert ls[i..i + 1] == [ls[i]];
      ConcatSingle(ls[i]);
    }
  }

  lemma ConcatSingle(l: string)
    ensures Concat([l]) == l
  {
    assert [l][1..] == [];
    assert Concat([l]) == l + "";
  }

  /** Each read returns the next physical line, flagged end of input
      when it is the unterminated rest, and "" at the end. */
  lemma ReadAt(ls: seq<string>, i: nat)
    requires Physical(ls) && i <= |ls|
    ensures i == |ls| ==> Session.ReadString(Concat(ls), Offset(ls, i)) == Session.Read("", true)
    ensures i < |ls| ==> Session.ReadString(Concat(ls), Offset(ls, i)) == Session.Read(ls[i], !Session.IsLine(ls[i]))
  {
    var input := Concat(ls);
    if i == |ls| {
      assert ls[..i] == ls;
    } else {
      LineAt(ls, i);
      if Session.IsLine(ls[i]) {
        Session.ReadsLine(input, Offset(ls, i), ls[i]);
      } else {
        assert i == |ls| - 1 && Session.NoNewline(ls[i]);
        assert ls[..|ls|] == ls;
        assert Offset(ls, i) + |ls[i]| == |input|;
        assert input[Offset(ls, i)..] == ls[i];
        Session.ReadsTail(input, Offset(ls, i));
      }
    }
  }

  /** An index of the lines as its byte offset. */
  function OffsetOf(ls: seq<string>, r: Option<nat>): Option<nat>
    requires r.Some? ==> r.value <= |ls|
  {
    if r.Some? then Some(Offset(ls, r.value)) else None
  }

  /** The byte-level search for the closing fence stops after the same line. */
  lemma {:induction false} CloseFenceAgrees(ls: seq<string>, j: nat)
    requires Physical(ls) && j <= |ls|
    ensures Session.CloseFence(Concat(ls), Offset(ls, j)) == OffsetOf(ls, CloseFence(ls, j))
    decreases |ls| - j
  {
    if j < |ls| && Session.IsLine(ls[j]) && !Session.ContainsFence(ls[j]) {
      CloseFenceAgrees(ls, j + 1);
      CloseFenceNext(ls, j);
    } else {
      CloseFenceHere(ls, j);
    }
  }

  /** A complete line without a fence passes the search on to the next line. */
  lemma CloseFenceNext(ls: seq<string>, j: nat)
    requires Physical(ls) && j < |ls| && Session.IsLine(ls[j]) && !Session.ContainsFence(ls[j])
    ensures Session.CloseFence(Concat(ls), Offset(ls, j)) == Session.CloseFence(Concat(ls), Offset(ls, j + 1))
  {
    assert Session.ReadString(Concat(ls), Offset(ls, j)) == Session.Read(ls[j], false) by { ReadAt(ls, j); }
    assert Offset(ls, j + 1) == Offset(ls, j) + |ls[j]| by { OffsetNext(ls, j); }
    Session.CloseFenceOver(Concat(ls), Offset(ls, j), ls[j], Offset(ls, j + 1));
  }

  /** The search ends at a line with a fence, at an unterminated last line and at the end. */
  lemma CloseFenceHere(ls: seq<string>, j: nat)
    requires Physical(ls) && j <= |ls|
    requires j < |ls| ==> !Session.IsLine(ls[j]) || Session.ContainsFence(ls[j])
    ensures Session.CloseFence(Concat(ls), Offset(ls, j)) == OffsetOf(ls, CloseFence(ls, j))
  {
    if j == |ls| {
      CloseFenceAtEnd(ls);
    } else if Session.ContainsFence(ls[j]) {
      CloseFenceAtFence(ls, j);
    } else {
      CloseFenceAtTail(ls, j);
    }
  }

  lemma CloseFenceAtEnd(ls: seq<string>)
    requires Physical(ls)
    ensures Session.CloseFence(Concat(ls), Offset(ls, |ls|)) == None
  {
    assert Session.ReadString(Concat(ls), Offset(ls, |ls|)) == Session.Read("", true) by { ReadAt(ls, |ls|); }
    Session.CloseFenceLast(Concat(ls), Offset(ls, |ls|), "", true);
  }

  lemma CloseFenceAtFence(ls: seq<string>, j: nat)
    requires Physical(ls) && j < |ls| && Session.ContainsFence(ls[j])
    ensures Session.CloseFence(Concat(ls), Offset(ls, j)) == Some(Offset(ls, j + 1))
  {
    var input, pos, next, l := Concat(ls), Offset(ls, j), Offset(ls, j + 1), ls[j];
    var eof := !Session.IsLine(l);
    assert Session.ReadString(input, pos) == Session.Read(l, eof) by { ReadAt(ls, j); }
    assert next == pos + |l| by { OffsetNext(ls, j); }
    assert pos <= |input| by { ReadAt(ls, j); LineAt(ls, j); }
    Session.CloseFenceHit(input, pos, l, eof, next);
  }

  lemma CloseFenceAtTail(ls: seq<string>, j: nat)
    requires Physical(ls) && j < |ls| && !Session.IsLine(ls[j]) && !Session.ContainsFence(ls[j])
    ensures j + 1 == |ls|
    ensures Session.CloseFence(Concat(ls), Offset(ls, j)) == None
  {
    assert Session.ReadString(Concat(ls), Offset(ls, j)) == Session.Read(ls[j], true) by { ReadAt(ls, j); }
    Session.CloseFenceLast(Concat(ls), Offset(ls, j), ls[j], true);
  }

  /** A line-level step with its line index turned into a byte offset. */
  function AtOffset(ls: seq<string>, s: Session.Step): Session.Step
    requires s.Go? ==> s.next <= |ls|
  {
    match s
    case Stop(exit) => s
    case Go(payload, next) => Session.Go(payload, Offset(ls, next))
  }

  /** The byte-level turn at a line that opens a block is the line-level turn. */
  lemma BlockTurnAgrees(ls: seq<string>, i: nat, commands: string -> string, mentions: string -> string)
    requires Physical(ls) && i < |ls| && Session.IsLine(ls[i]) && HasPrefix(ls[i], Session.Fence)
    ensures Session.TurnAt(Concat(ls), Offset(ls, i), commands, mentions) == AtOffset(ls, LineTurn(ls, i, commands, mentions))
  {
    var input := Concat(ls);
    var pos := Offset(ls, i);
    ReadAt(ls, i);
    LineAt(ls, i);
    CloseFenceAgrees(ls, i + 1);
    Session.TurnAtBlock(input, pos, commands, mentions, ls[i], Offset(ls, i + 1));
    var c := CloseFence(ls, i + 1);
    if c.Some? {
      assert input[pos..Offset(ls, c.value)] == Concat(ls[i..c.value]) by { Between(ls, i, c.value); }
    }
  }

  /** The byte-level turn at a complete line that opens no block is the line-level turn. */
  lemma PlainTurnAgrees(ls: seq<string>, i: nat, commands: string -> string, mentions: string -> string)
    requires Physical(ls) && i < |ls| && Session.IsLine(ls[i]) && !HasPrefix(ls[i], Session.Fence)
    ensures Session.TurnAt(Concat(ls), Offset(ls, i), commands, mentions) == AtOffset(ls, LineTurn(ls, i, commands, mentions))
  {
    ReadAt(ls, i);
    LineAt(ls, i);
    Session.TurnAtPlain(Concat(ls), Offset(ls, i), commands, mentions);
  }

  /** The byte-level turn at the start of line `i` is the line-level turn. */
  lemma TurnAgrees(ls: seq<string>, i: nat, commands: string -> string, mentions: string -> string)
    requires Physical(ls) && i <= |ls|
    ensures Session.TurnAt(Concat(ls), Offset(ls, i), commands, mentions) == AtOffset(ls, LineTurn(ls, i, commands, mentions))
  {
    if i < |ls| && Session.IsLine(ls[i]) {
      if HasPrefix(ls[i], Session.Fence) {
        BlockTurnAgrees(ls, i, commands, mentions);
      } else {
        PlainTurnAgrees(ls, i, commands, mentions);
      }
    } else {
      ReadAt(ls, i);
    }
  }

  /** From the start of line `i` on, the bytes and the lines give the same transcript. */
  lemma {:induction false} TranscriptAgrees(ls: seq<string>, i: nat, commands: string -> string, mentions: string -> string)
    requires Physical(ls) && i <= |ls|
    ensures Session.Transcript(Concat(ls), Offset(ls, i), commands, mentions) == Transcript(ls, i, commands, mentions)
    decreases |ls| - i
  {
    TurnAgrees(ls, i, commands, mentions);
    var t := LineTurn(ls, i, commands, mentions);
    if t.Go? {
      TranscriptAgrees(ls, t.next, commands, mentions);
    }
  }

  /** `Session.Run` on any input reads it line by line. */
  lemma RunByLines(input: string, commands: string -> string, mentions: string -> string)
    ensures Physical(Split(input, 0)) && Concat(Split(input, 0)) == input
    ensures Session.Transcript(input, 0, commands, mentions) == Transcript(Split(input, 0), 0, commands, mentions)
  {
    var ls := Split(input, 0);
    SplitConcat(input, 0);
    SplitPhysical(input, 0);
    assert input[0..] == input;
    assert ls[..0] == [];
    TranscriptAgrees(ls, 0, commands, mentions);
  }

  // What the loop promises, stated on lines.

  /** The lines `ls[i..j]` are complete lines none of which opens a block or quits. */
  predicate PlainLines(ls: seq<string>, i: nat, j: nat)
    requires i <= j <= |ls|
  {
    forall k :: i <= k < j ==>
      Session.IsLine(ls[k]) && !HasPrefix(ls[k], Session.Fence) && !Session.IsQuit(ls[k][..|ls[k]| - 1])
  }

  /** What plain lines send, one after another: the text of each after
      both passes, when that is not empty. */
  function Outs(ls: seq<string>, commands: string -> string, mentions: string -> string): (r: seq<string>)
    requires forall k :: 0 <= k < |ls| ==> |ls[k]| > 0
    ensures |r| <= |ls|
  {
    if ls == [] then []
    else
      var out := mentions(commands(ls[0][..|ls[0]| - 1]));
      (if out != "" then [out] else []) + Outs(ls[1..], commands, mentions)
  }

  /** A line that opens a block sends everything up to and including the
      first later line holding a fence as one message: verbatim, whatever
      the passes do, and starting with the fence; when no later line holds
      a fence the loop never ends. */
  lemma FencedBlock(ls: seq<string>, i: nat, commands: string -> string, mentions: string -> string,
                    commands': string -> string, mentions': string -> string)
    requires i < |ls| && Session.IsLine(ls[i]) && HasPrefix(ls[i], Session.Fence)
    ensures var c := CloseFence(ls, i + 1);
      c.None? ==> Transcript(ls, i, commands, mentions) == Session.Outcome([], Session.Hang)
    ensures var c := CloseFence(ls, i + 1);
      c.Some? ==>
        var t := Transcript(ls, i, commands, mentions);
        var rest := Transcript(ls, c.value, commands, mentions);
        |t.sent| > 0 && t.sent[0] == Concat(ls[i..c.value]) && t.sent[1..] == rest.sent && t.exit == rest.exit
    ensures var c := CloseFence(ls, i + 1);
      c.Some? ==>
        HasPrefix(Transcript(ls, i, commands, mentions).sent[0], Session.Fence) &&
        Transcript(ls, i, commands, mentions).sent[0] == Transcript(ls, i, commands', mentions').sent[0]
  {
    var c := CloseFence(ls, i + 1);
    if c.Some? {
      var j := c.value;
      assert ls[i..j] == [ls[i]] + ls[i + 1..j];
      assert Concat(ls[i..j]) == ls[i] + Concat(ls[i + 1..j]) by {
        assert ([ls[i]] + ls[i + 1..j])[1..] == ls[i + 1..j];
      }
      assert Concat(ls[i..j])[..3] == ls[i][..3];
    }
  }

  /** A complete line that opens no block loses its newline; it quits the
      loop when nothing is left of it but nothing or ":q", and otherwise
      goes through both passes and is sent unless that leaves it empty. */
  lemma PlainLine(ls: seq<string>, i: nat, commands: string -> string, mentions: string -> string)
    requires i < |ls| && Session.IsLine(ls[i]) && !HasPrefix(ls[i], Session.Fence)
    ensures var text := ls[i][..|ls[i]| - 1];
      ls[i] == text + "\n" && Session.NoNewline(text)
    ensures var text := ls[i][..|ls[i]| - 1];
      Session.IsQuit(text) ==> Transcript(ls, i, commands, mentions) == Session.Outcome([], Session.Quit)
    ensures var text := ls[i][..|ls[i]| - 1];
      var out := mentions(commands(text));
      !Session.IsQuit(text) ==>
        Transcript(ls, i, commands, mentions) == Session.Join(if out != "" then [out] else [], Transcript(ls, i + 1, commands, mentions))
  {
    var text := ls[i][..|ls[i]| - 1];
    assert ls[i] == text + [ls[i][|ls[i]| - 1]];
  }

  /** No session sends an empty message, and a session from line `i` sends
      at most one message per remaining line. */
  lemma {:induction false} NoMessageEmpty(ls: seq<string>, i: nat, commands: string -> string, mentions: string -> string)
    requires i <= |ls|
    ensures var t := Transcript(ls, i, commands, mentions);
      forall k :: 0 <= k < |t.sent| ==> t.sent[k] != ""
    ensures |Transcript(ls, i, commands, mentions).sent| <= |ls| - i
    decreases |ls| - i
  {
    var s := LineTurn(ls, i, commands, mentions);
    if s.Go? {
      NoMessageEmpty(ls, s.next, commands, mentions);
      if HasPrefix(ls[i], Session.Fence) {
        var d := commands;
        FencedBlock(ls, i, commands, mentions, d, mentions);
      }
    }
  }

  /** Over plain lines the loop sends what each of them makes, and reads
      on to the end of the input. */
  lemma {:induction false} PlainRun(ls: seq<string>, i: nat, commands: string -> string, mentions: string -> string)
    requires i <= |ls| && PlainLines(ls, i, |ls|)
    ensures Transcript(ls, i, commands, mentions) == Session.Outcome(Outs(ls[i..], commands, mentions), Session.EndOfInput)
    decreases |ls| - i
  {
    if i < |ls| {
      PlainRun(ls, i + 1, commands, mentions);
      assert ls[i..][1..] == ls[i + 1..];
    }
  }

  /** A quit line ends the loop: the sends before it are those of the plain
      lines before it, and nothing after it is read. */
  lemma {:induction false} QuitStops(ls: seq<string>, i: nat, q: nat, commands: string -> string, mentions: string -> string)
    requires i <= q < |ls| && PlainLines(ls, i, q)
    requires Session.IsLine(ls[q]) && !HasPrefix(ls[q], Session.Fence) && Session.IsQuit(ls[q][..|ls[q]| - 1])
    ensures Transcript(ls, i, commands, mentions) == Session.Outcome(Outs(ls[i..q], commands, mentions), Session.Quit)
    ensures Transcript(ls, i, commands, mentions) == Transcript(ls[..q + 1], i, commands, mentions)
    decreases q - i
  {
    var ls' := ls[..q + 1];
    if i < q {
      QuitStops(ls, i + 1, q, commands, mentions);
      assert ls[i..q][1..] == ls[i + 1..q];
      assert ls'[i] == ls[i];
    } else {
      assert ls'[q] == ls[q];
      assert ls[i..q] == [];
    }
  }

  // Scenarios.

  /** A fence inside the opening line does not close the block: the next
      line holding one does. */
  lemma ScenarioFenceInOpener(commands: string -> string, mentions: string -> string)
    ensures Transcript(["```x```\n", "foo ```\n", "bar"], 0, commands, mentions) == Session.Outcome(["```x```\nfoo ```\n"], Session.EndOfInput)
  {
    var ls := ["```x```\n", "foo ```\n", "bar"];
    assert Session.ContainsFence(ls[1]);
    assert Concat(ls[0..2]) == "```x```\nfoo ```\n" by {
      var a := ls[0..2];
      assert a[1..][1..] == [];
      assert Concat(a[1..]) == ls[1] + "";
      assert Concat(a) == ls[0] + ls[1];
    }
  }

  /** Inside a block `@name` tokens and commands are not touched. */
  lemma ScenarioBlockVerbatim(commands: string -> string, mentions: string -> string)
    ensures Transcript(["```\n", "hi @bob\n", "```\n"], 0, commands, mentions) == Session.Outcome(["```\nhi @bob\n```\n"], Session.EndOfInput)
  {
    var ls := ["```\n", "hi @bob\n", "```\n"];
    assert !Session.ContainsFence(ls[1]);
    assert Session.ContainsFence(ls[2]);
    assert Concat(ls[0..3]) == "```\nhi @bob\n```\n" by {
      var a := ls[0..3];
      assert a[1..][1..][1..] == [];
      assert Concat(a[1..][1..]) == ls[2] + "";
      assert Concat(a[1..]) == ls[1] + ls[2];
      assert Concat(a) == ls[0] + (ls[1] + ls[2]);
    }
  }

  /** ":q" ends the session before the lines after it are read. */
  lemma ScenarioQuit(commands: string -> string, mentions: string -> string)
    ensures Transcript([":q\n", "hello\n"], 0, commands, mentions) == Session.Outcome([], Session.Quit)
  {
    assert [":q\n", "hello\n"][0][..2] == ":q";
  }
}
