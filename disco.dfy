/** The client as main.go wires it: the read loop of `Session` with the
    mention pass of `Mentions` (main.go:119) as its second pass. */
module Disco {
  import Session
  import Lines
  import Mentions

  /** The mention pass against the lookups of one run. */
  function MentionPass(dir: Mentions.Directory): string -> string {
    line => Mentions.ParseForMentions(line, dir)
  }

  /** The pass that leaves a line as it is. */
  function Unchanged(): string -> string {
    line => line
  }

  /** A turn at line `i` is the same with the mention pass as without it
      when nobody can be resolved. */
  lemma TurnWithoutCandidates(ls: seq<string>, i: nat, commands: string -> string, dir: Mentions.Directory)
    requires i <= |ls|
    requires forall name :: Mentions.NoCandidate(dir, name)
    ensures Lines.LineTurn(ls, i, commands, MentionPass(dir)) == Lines.LineTurn(ls, i, commands, Unchanged())
  {
    if i < |ls| && Session.IsLine(ls[i]) {
      Mentions.ParseForMentionsNoCandidates(commands(ls[i][..|ls[i]| - 1]), dir);
    }
  }

  /** When nobody can be resolved the client sends every line exactly as
      the command pass leaves it. */
  lemma {:induction false} WithoutCandidates(ls: seq<string>, i: nat, commands: string -> string, dir: Mentions.Directory)
    requires i <= |ls|
    requires forall name :: Mentions.NoCandidate(dir, name)
    ensures Lines.Transcript(ls, i, commands, MentionPass(dir)) == Lines.Transcript(ls, i, commands, Unchanged())
    decreases |ls| - i
  {
    TurnWithoutCandidates(ls, i, commands, dir);
    var s := Lines.LineTurn(ls, i, commands, Unchanged());
    if s.Go? {
      WithoutCandidates(ls, s.next, commands, dir);
    }
  }

  /** The same on the bytes of the whole input. */
  lemma ClientWithoutCandidates(input: string, commands: string -> string, dir: Mentions.Directory)
    requires forall name :: Mentions.NoCandidate(dir, name)
    ensures Session.Transcript(input, 0, commands, MentionPass(dir)) == Session.Transcript(input, 0, commands, Unchanged())
  {
    Lines.RunByLines(input, commands, MentionPass(dir));
    Lines.RunByLines(input, commands, Unchanged());
    WithoutCandidates(Lines.Split(input, 0), 0, commands, dir);
  }
}
