/** Mention handling of the client: the `@name` resolver `ReplaceMentions`
    and the tokenizer `ParseForMentions` that applies it to every
    `@\w+` run of an outgoing line. */
module Mentions {
  import opened Wrappers
  import opened Text

  /** The most members one `GuildMembers` call returns (main.go:181). */
  const MemberLimit: nat := 1000

  datatype User = User(id: string, username: string)

  /** A guild member; `nick` is "" when the member has no nickname. */
  datatype Member = Member(nick: string, user: User)

  /** A private (direct-message) channel and its recipients. */
  datatype DmChannel = DmChannel(recipients: seq<User>)

  /** What the two lookups of one resolution return: the guild's member
      roster in the order the platform lists it, and the user's private
      channels. `None` stands for a lookup that returned an error. */
  datatype Directory = Directory(roster: Option<seq<Member>>, dms: Option<seq<DmChannel>>)

  /** The platform's addressable reference for a user, `<@ID>`. */
  function Mention(u: User): (r: string)
    ensures |r| == |u.id| + 3 && r[0] == '<' && r[1..|r| - 1] == "@" + u.id
  {
    "<@" + u.id + ">"
  }

  /** Distinct user IDs give distinct mentions. */
  lemma MentionInjective(a: User, b: User)
    requires Mention(a) == Mention(b)
    ensures a.id == b.id
  {
    assert Mention(a)[2..|Mention(a)| - 1] == a.id;
    assert Mention(b)[2..|Mention(b)| - 1] == b.id;
  }

  /** The members one lookup returns: the first `MemberLimit` of the roster. */
  function FetchMembers(roster: seq<Member>): (r: seq<Member>)
    ensures r <= roster
    ensures |r| == if |roster| <= MemberLimit then |roster| else MemberLimit
  {
    if |roster| <= MemberLimit then roster else roster[..MemberLimit]
  }

  /** The member test of main.go:189-195: nickname, then username, starts with `name`. */
  predicate MemberMatches(m: Member, name: string) {
    HasPrefix(m.nick, name) || HasPrefix(m.user.username, name)
  }

  /** The recipient test of main.go:207: `name` starts with the recipient's
      username (the reverse of the member test). */
  predicate RecipientMatches(u: User, name: string) {
    HasPrefix(name, u.username)
  }

  /** Index of the first member matching `name`. */
  function FirstMember(ms: seq<Member>, name: string): (r: Option<nat>)
    ensures r.Some? ==> r.value < |ms| && MemberMatches(ms[r.value], name)
    ensures r.Some? ==> forall j :: 0 <= j < r.value ==> !MemberMatches(ms[j], name)
    ensures r.None? <==> forall j :: 0 <= j < |ms| ==> !MemberMatches(ms[j], name)
  {
    if |ms| == 0 then None
    else if MemberMatches(ms[0], name) then Some(0)
    else
      match FirstMember(ms[1..], name)
      case None => None
      case Some(i) => Some(i + 1)
  }

  /** Index of the first user matching `name` as a recipient. */
  function FirstRecipientIn(us: seq<User>, name: string): (r: Option<nat>)
    ensures r.Some? ==> r.value < |us| && RecipientMatches(us[r.value], name)
    ensures r.Some? ==> forall k :: 0 <= k < r.value ==> !RecipientMatches(us[k], name)
    ensures r.None? <==> forall k :: 0 <= k < |us| ==> !RecipientMatches(us[k], name)
  {
    if |us| == 0 then None
    else if RecipientMatches(us[0], name) then Some(0)
    else
      match FirstRecipientIn(us[1..], name)
      case None => None
      case Some(k) => Some(k + 1)
  }

  /** No recipient of the channels `chs[..c]` matches `name`. */
  predicate NoRecipientBefore(chs: seq<DmChannel>, c: nat, name: string)
    requires c <= |chs|
  {
    forall c', k :: 0 <= c' < c && 0 <= k < |chs[c'].recipients| ==> !RecipientMatches(chs[c'].recipients[k], name)
  }

  /** Channel index and recipient index of the first recipient, walking the
      channels in order and each channel's recipients in order, that matches. */
  function FirstRecipient(chs: seq<DmChannel>, name: string): (r: Option<(nat, nat)>)
    ensures r.Some? ==> r.value.0 < |chs| && r.value.1 < |chs[r.value.0].recipients|
    ensures r.Some? ==> RecipientMatches(chs[r.value.0].recipients[r.value.1], name)
    ensures r.Some? ==> NoRecipientBefore(chs, r.value.0, name)
    ensures r.Some? ==> forall k :: 0 <= k < r.value.1 ==> !RecipientMatches(chs[r.value.0].recipients[k], name)
    ensures r.None? <==> NoRecipientBefore(chs, |chs|, name)
  {
    if |chs| == 0 then None
    else
      match FirstRecipientIn(chs[0].recipients, name)
      case Some(k) => Some((0, k))
      case None =>
        match FirstRecipient(chs[1..], name)
        case None =>
          assert forall c' :: 1 <= c' < |chs| ==> chs[c'] == chs[1..][c' - 1];
          None
        case Some((c, k)) =>
          assert forall c' :: 1 <= c' <= c ==> chs[c'] == chs[1..][c' - 1];
          Some((c + 1, k))
  }

  /** The result `ReplaceMentions` computes for the token `input` (main.go:173-214). */
  function Resolve(dir: Directory, input: string): (r: string)
  {
    if |input| < 2 then input
    else
      var name := input[1..];
      match dir.roster
      case None => input
      case Some(roster) =>
        var ms := FetchMembers(roster);
        match FirstMember(ms, name)
        case Some(i) => Mention(ms[i].user)
        case None =>
          match dir.dms
          case None => input
          case Some(chs) =>
            match FirstRecipient(chs, name)
            case Some((c, k)) => Mention(chs[c].recipients[k])
            case None => input
  }

  /** `ReplaceMentions` (main.go:173-214): the imperative first-match search
      over the fetched members, then over the private channels' recipients. */
  method ReplaceMentions(dir: Directory, input: string) returns (r: string)
    ensures r == Resolve(dir, input)
  {
    if |input| < 2 {
      return input;
    }
    var name := input[1..];
    if dir.roster.None? {
      return input;
    }
    var members := FetchMembers(dir.roster.value);
    for i := 0 to |members|
      invariant forall j :: 0 <= j < i ==> !MemberMatches(members[j], name)
    {
      if HasPrefix(members[i].nick, name) {
        return Mention(members[i].user);
      }
      if HasPrefix(members[i].user.username, name) {
        return Mention(members[i].user);
      }
    }
    if dir.dms.None? {
      return input;
    }
    var channels := dir.dms.value;
    for c := 0 to |channels|
      invariant NoRecipientBefore(channels, c, name)
    {
      var recipients := channels[c].recipients;
      for k := 0 to |recipients|
        invariant forall k' :: 0 <= k' < k ==> !RecipientMatches(recipients[k'], name)
      {
        if HasPrefix(name, recipients[k].username) {
          return Mention(recipients[k]);
        }
      }
    }
    return input;
  }

  /** No fetched member and (when that lookup succeeds) no recipient matches. */
  predicate NoCandidate(dir: Directory, name: string) {
    match dir.roster
    case None => true
    case Some(roster) =>
      (forall j :: 0 <= j < |FetchMembers(roster)| ==> !MemberMatches(FetchMembers(roster)[j], name)) &&
      (dir.dms.None? || NoRecipientBefore(dir.dms.value, |dir.dms.value|, name))
  }

  /** The first matching member within the lookup limit wins, whatever the
      private channels hold. */
  lemma ResolveFirstMember(dir: Directory, input: string, i: nat)
    requires |input| >= 2 && dir.roster.Some?
    requires i < |dir.roster.value| && i < MemberLimit
    requires MemberMatches(dir.roster.value[i], input[1..])
    requires forall j :: 0 <= j < i ==> !MemberMatches(dir.roster.value[j], input[1..])
    ensures Resolve(dir, input) == Mention(dir.roster.value[i].user)
  {
    var ms := FetchMembers(dir.roster.value);
    assert ms[i] == dir.roster.value[i];
    assert FirstMember(ms, input[1..]).Some?;
  }

  /** Only when no fetched member matches are the private channels walked,
      and then the first recipient whose username is a prefix of the name wins. */
  lemma ResolveFirstRecipient(dir: Directory, input: string, c: nat, k: nat)
    requires |input| >= 2 && dir.roster.Some? && dir.dms.Some?
    requires forall j :: 0 <= j < |FetchMembers(dir.roster.value)| ==> !MemberMatches(FetchMembers(dir.roster.value)[j], input[1..])
    requires c < |dir.dms.value| && k < |dir.dms.value[c].recipients|
    requires RecipientMatches(dir.dms.value[c].recipients[k], input[1..])
    requires NoRecipientBefore(dir.dms.value, c, input[1..])
    requires forall k' :: 0 <= k' < k ==> !RecipientMatches(dir.dms.value[c].recipients[k'], input[1..])
    ensures Resolve(dir, input) == Mention(dir.dms.value[c].recipients[k])
  {
    var chs := dir.dms.value;
    assert FirstRecipient(chs, input[1..]).Some?;
  }

  /** A token `@name` comes back byte-identical exactly when it is too short,
      or a lookup failed or found no candidate. */
  lemma ResolveUnchanged(dir: Directory, input: string)
    requires |input| >= 1 && input[0] == '@'
    ensures Resolve(dir, input) == input <==> |input| < 2 || NoCandidate(dir, input[1..])
  {
    if |input| >= 2 && dir.roster.Some? {
      var ms := FetchMembers(dir.roster.value);
      var first := FirstMember(ms, input[1..]);
      if first.Some? {
        assert Mention(ms[first.value].user)[0] == '<';
      } else if dir.dms.Some? {
        var r := FirstRecipient(dir.dms.value, input[1..]);
        if r.Some? {
          assert Mention(dir.dms.value[r.value.0].recipients[r.value.1])[0] == '<';
        }
      }
    }
  }

  /** Every result is the token itself or the mention of a user that matched. */
  lemma ResolveSound(dir: Directory, input: string)
    ensures var r := Resolve(dir, input);
      r == input ||
      (|input| >= 2 && dir.roster.Some? &&
       ((exists j :: 0 <= j < |dir.roster.value| && j < MemberLimit &&
           MemberMatches(dir.roster.value[j], input[1..]) && r == Mention(dir.roster.value[j].user)) ||
        (dir.dms.Some? &&
         exists c, k :: 0 <= c < |dir.dms.value| && 0 <= k < |dir.dms.value[c].recipients| &&
           RecipientMatches(dir.dms.value[c].recipients[k], input[1..]) && r == Mention(dir.dms.value[c].recipients[k]))))
  {
    if |input| >= 2 && dir.roster.Some? {
      var ms := FetchMembers(dir.roster.value);
      var first := FirstMember(ms, input[1..]);
      if first.Some? {
        assert ms[first.value] == dir.roster.value[first.value];
      } else if dir.dms.Some? {
        var r := FirstRecipient(dir.dms.value, input[1..]);
        if r.Some? {
          var (c, k) := r.value;
          assert RecipientMatches(dir.dms.value[c].recipients[k], input[1..]);
        }
      }
    }
  }

  // ---------------------------------------------------------------------
  // The tokenizer: `regexp.Compile("@\\w+")` and `ReplaceAllStringFunc`.
  // ---------------------------------------------------------------------

  /** A line cut into single bytes and `@name` tokens (`name` is the word run). */
  datatype Piece = Char(c: char) | At(name: string)

  function RawPiece(p: Piece): string {
    match p
    case Char(c) => [c]
    case At(name) => "@" + name
  }

  /** The text the pieces stand for. */
  function Raw(ps: seq<Piece>): string {
    if |ps| == 0 then "" else RawPiece(ps[0]) + Raw(ps[1..])
  }

  /** Leftmost-first scan for `@\w+`, where `\w+` is greedy. */
  function Tokenize(s: string): seq<Piece>
    decreases |s|
  {
    if |s| == 0 then []
    else if s[0] == '@' && WordRun(s[1..]) > 0 then
      var k := WordRun(s[1..]);
      [At(s[1..k + 1])] + Tokenize(s[k + 1..])
    else [Char(s[0])] + Tokenize(s[1..])
  }

  predicate StartsWord(p: Piece) {
    p.Char? && IsWordChar(p.c)
  }

  /** A cut where every token is a non-empty word run, no token could be
      extended by the byte after it, and no `@` left as a plain byte is
      followed by a word byte: the leftmost, longest, non-overlapping cut. */
  predicate WellFormed(ps: seq<Piece>) {
    (forall i :: 0 <= i < |ps| && ps[i].At? ==> |ps[i].name| > 0 && AllWord(ps[i].name)) &&
    (forall i :: 0 <= i < |ps| - 1 && (ps[i].At? || ps[i] == Char('@')) ==> !StartsWord(ps[i + 1]))
  }

  /** Each token is handed to the resolver as `@name`; every other byte stays. */
  function Render(ps: seq<Piece>, dir: Directory): string {
    if |ps| == 0 then ""
    else
      (match ps[0]
       case Char(c) => [c]
       case At(name) => Resolve(dir, "@" + name)) + Render(ps[1..], dir)
  }

  lemma {:induction false} RawConcat(a: seq<Piece>, b: seq<Piece>)
    ensures Raw(a + b) == Raw(a) + Raw(b)
  {
    if a == [] {
      assert a + b == b;
    } else {
      assert (a + b)[1..] == a[1..] + b;
      RawConcat(a[1..], b);
    }
  }

  /** Cutting loses and invents nothing. */
  lemma {:induction false} TokenizeRaw(s: string)
    ensures Raw(Tokenize(s)) == s
    decreases |s|
  {
    if |s| > 0 {
      var ps := Tokenize(s);
      var k := if s[0] == '@' && WordRun(s[1..]) > 0 then WordRun(s[1..]) + 1 else 1;
      assert RawPiece(ps[0]) == s[..k] && ps[1..] == Tokenize(s[k..]) by {
        if s[0] == '@' && WordRun(s[1..]) > 0 {
          TokenizeTokenFirst(s);
          assert s[..k] == "@" + s[1..k];
        } else {
          TokenizeCharFirst(s);
        }
      }
      TokenizeRaw(s[k..]);
      assert Raw(ps) == RawPiece(ps[0]) + Raw(ps[1..]);
      SliceSplit(s, 0, k);
      assert s[0..] == s;
    }
  }

  /** The first piece of a cut starts with the first byte of the text. */
  lemma TokenizeHead(s: string)
    requires |s| > 0
    ensures |Tokenize(s)| > 0
    ensures StartsWord(Tokenize(s)[0]) <==> IsWordChar(s[0])
  {
  }

  /** The cut `Tokenize` makes is leftmost, longest and non-overlapping. */
  lemma {:induction false} TokenizeWellFormed(s: string)
    ensures WellFormed(Tokenize(s))
    decreases |s|
  {
    if |s| > 0 {
      var ps := Tokenize(s);
      if s[0] == '@' && WordRun(s[1..]) > 0 {
        var k := WordRun(s[1..]);
        var rest := s[k + 1..];
        WordRunSpec(s[1..]);
        TokenizeWellFormed(rest);
        assert ps == [At(s[1..k + 1])] + Tokenize(rest);
        assert s[1..][..k] == s[1..k + 1];
        if |rest| > 0 {
          TokenizeHead(rest);
          assert rest[0] == s[1..][k];
        }
      } else {
        var rest := s[1..];
        TokenizeWellFormed(rest);
        assert ps == [Char(s[0])] + Tokenize(rest);
        if |rest| > 0 {
          TokenizeHead(rest);
          if s[0] == '@' {
            assert WordRun(rest) == 0;
          }
        }
      }
    }
  }

  /** A token followed by a non-word byte, or by nothing, is cut as one piece. */
  lemma TokenizeToken(name: string, t: string)
    requires |name| > 0 && AllWord(name) && (t == [] || !IsWordChar(t[0]))
    ensures Tokenize("@" + name + t) == [At(name)] + Tokenize(t)
  {
    var s := "@" + name + t;
    assert s[1..] == name + t;
    WordRunOf(name, t);
    assert s[1..|name| + 1] == name;
    assert s[|name| + 1..] == t;
  }

  /** A byte that starts no token is cut as a plain byte. */
  lemma TokenizeChar(c: char, t: string)
    requires c != '@' || t == [] || !IsWordChar(t[0])
    ensures Tokenize([c] + t) == [Char(c)] + Tokenize(t)
  {
    var s := [c] + t;
    assert s[1..] == t;
  }

  /** Any leftmost, longest, non-overlapping cut of a text is the one
      `Tokenize` makes: together with `TokenizeRaw`, `Tokenize` and `Raw`
      are inverse on well-formed cuts. */
  lemma {:induction false} TokenizeUnique(ps: seq<Piece>)
    requires WellFormed(ps)
    ensures Tokenize(Raw(ps)) == ps
  {
    if |ps| > 0 {
      var rest := ps[1..];
      assert WellFormed(rest) by {
        forall i | 0 <= i < |rest| ensures rest[i] == ps[i + 1] { }
      }
      TokenizeUnique(rest);
      var t := Raw(rest);
      assert Raw(ps) == RawPiece(ps[0]) + t;
      assert t == [] || !IsWordChar(t[0]) || (ps[0].Char? && ps[0] != Char('@')) by {
        if |rest| > 0 && (ps[0].At? || ps[0] == Char('@')) {
          assert !StartsWord(rest[0]);
          assert Raw(rest) == RawPiece(rest[0]) + Raw(rest[1..]);
        }
      }
      match ps[0]
      case At(name) =>
        TokenizeToken(name, t);
      case Char(c) =>
        TokenizeChar(c, t);
      assert ps == [ps[0]] + rest;
    }
  }

  /** When every token of the line resolves to itself the line is untouched. */
  lemma {:induction false} RenderFixed(ps: seq<Piece>, dir: Directory)
    ensures (forall p :: p in ps && p.At? ==> Resolve(dir, "@" + p.name) == "@" + p.name) ==> Render(ps, dir) == Raw(ps)
  {
    if |ps| > 0 {
      RenderFixed(ps[1..], dir);
      assert forall p :: p in ps[1..] ==> p in ps;
    }
  }

  lemma {:induction false} RenderConcat(a: seq<Piece>, b: seq<Piece>, dir: Directory)
    ensures Render(a + b, dir) == Render(a, dir) + Render(b, dir)
  {
    if a == [] {
      assert a + b == b;
    } else {
      assert (a + b)[1..] == a[1..] + b;
      RenderConcat(a[1..], b, dir);
    }
  }

  /** The scan restarts cleanly at a non-word byte: text before it is cut
      as if it stood alone. */
  lemma {:induction false} TokenizeConcat(a: string, t: string)
    requires t == [] || !IsWordChar(t[0])
    ensures Tokenize(a + t) == Tokenize(a) + Tokenize(t)
    decreases |a|
  {
    if a == [] {
      assert a + t == t;
    } else {
      var k := WordRun(a[1..]);
      if a[0] == '@' && k > 0 {
        var name, b := a[1..k + 1], a[k + 1..];
        TokenizeConcat(b, t);
        TokenizeConcatToken(a, name, b, t);
      } else {
        TokenizeConcat(a[1..], t);
        TokenizeConcatChar(a, t);
      }
    }
  }

  /** The cut of a text that starts with a token. */
  lemma TokenizeTokenFirst(s: string)
    requires |s| > 0 && s[0] == '@' && WordRun(s[1..]) > 0
    ensures Tokenize(s) == [At(s[1..WordRun(s[1..]) + 1])] + Tokenize(s[WordRun(s[1..]) + 1..])
  {
  }

  /** The cut of a text that starts with a plain byte. */
  lemma TokenizeCharFirst(s: string)
    requires |s| > 0 && !(s[0] == '@' && WordRun(s[1..]) > 0)
    ensures Tokenize(s) == [Char(s[0])] + Tokenize(s[1..])
  {
  }

  lemma TokenizeConcatToken(a: string, name: string, b: string, t: string)
    requires |a| > 0 && a[0] == '@' && 0 < WordRun(a[1..]) && name == a[1..WordRun(a[1..]) + 1] && b == a[WordRun(a[1..]) + 1..]
    requires t == [] || !IsWordChar(t[0])
    requires Tokenize(b + t) == Tokenize(b) + Tokenize(t)
    ensures Tokenize(a + t) == Tokenize(a) + Tokenize(t)
  {
    TokenizeAppendToken(a, name, b, t);
    TokenizeTokenFirst(a);
    ConsAppend(At(name), Tokenize(a + t), Tokenize(b + t), Tokenize(a), Tokenize(b), Tokenize(t));
  }

  lemma TokenizeAppendToken(a: string, name: string, b: string, t: string)
    requires |a| > 0 && a[0] == '@' && 0 < WordRun(a[1..]) && name == a[1..WordRun(a[1..]) + 1] && b == a[WordRun(a[1..]) + 1..]
    requires t == [] || !IsWordChar(t[0])
    ensures Tokenize(a + t) == [At(name)] + Tokenize(b + t)
  {
    var k := WordRun(a[1..]);
    AppendSlices(a, t, 1, 1);
    AppendSlices(a, t, 1, k + 1);
    WordRunAppend(a[1..], t);
    assert (a + t)[0] == '@';
    TokenizeTokenFirst(a + t);
  }

  lemma TokenizeConcatChar(a: string, t: string)
    requires |a| > 0 && !(a[0] == '@' && 0 < WordRun(a[1..]))
    requires t == [] || !IsWordChar(t[0])
    requires Tokenize(a[1..] + t) == Tokenize(a[1..]) + Tokenize(t)
    ensures Tokenize(a + t) == Tokenize(a) + Tokenize(t)
  {
    TokenizeAppendChar(a, t);
    TokenizeCharFirst(a);
    ConsAppend(Char(a[0]), Tokenize(a + t), Tokenize(a[1..] + t), Tokenize(a), Tokenize(a[1..]), Tokenize(t));
  }

  lemma TokenizeAppendChar(a: string, t: string)
    requires |a| > 0 && !(a[0] == '@' && 0 < WordRun(a[1..]))
    requires t == [] || !IsWordChar(t[0])
    ensures Tokenize(a + t) == [Char(a[0])] + Tokenize(a[1..] + t)
  {
    AppendSlices(a, t, 1, 1);
    WordRunAppend(a[1..], t);
    assert (a + t)[0] == a[0];
    TokenizeCharFirst(a + t);
  }

  /** A word run is not lengthened by text that starts with a non-word byte. */
  lemma {:induction false} WordRunAppend(x: string, t: string)
    requires t == [] || !IsWordChar(t[0])
    ensures WordRun(x + t) == WordRun(x)
  {
    if x == [] {
      assert x + t == t;
    } else {
      assert (x + t)[0] == x[0];
      assert (x + t)[1..] == x[1..] + t;
      WordRunAppend(x[1..], t);
    }
  }

  /** `ParseForMentions` (main.go:160-170): every `@\w+` run is replaced by
      what `ReplaceMentions` makes of it, everything else is kept. */
  function ParseForMentions(line: string, dir: Directory): (r: string)
    ensures (forall p :: p in Tokenize(line) && p.At? ==> Resolve(dir, "@" + p.name) == "@" + p.name) ==> r == line
  {
    RenderFixed(Tokenize(line), dir);
    TokenizeRaw(line);
    Render(Tokenize(line), dir)
  }

  /** When both lookups fail, or find nobody, the pass changes nothing. */
  lemma ParseForMentionsNoCandidates(line: string, dir: Directory)
    requires forall name :: NoCandidate(dir, name)
    ensures ParseForMentions(line, dir) == line
  {
    forall p | p in Tokenize(line) && p.At?
      ensures Resolve(dir, "@" + p.name) == "@" + p.name
    {
      var tok := "@" + p.name;
      ResolveUnchanged(dir, tok);
      assert tok[1..] == p.name;
    }
  }

  // ---------------------------------------------------------------------
  // Scenarios.
  // ---------------------------------------------------------------------

  /** A nickname match of an earlier member beats a username match of a later one. */
  lemma NicknameBeforeLaterUsername(a: User, b: User)
    ensures Resolve(Directory(Some([Member("bob", a), Member("", User(b.id, "bob2"))]), None), "@bob") == Mention(a)
  {
    var dir := Directory(Some([Member("bob", a), Member("", User(b.id, "bob2"))]), None);
    ResolveFirstMember(dir, "@bob", 0);
  }

  /** A member without nickname is found by username prefix. */
  lemma UsernamePrefix(alice: User)
    requires alice.username == "alice"
    ensures Resolve(Directory(Some([Member("", alice)]), None), "@ali") == Mention(alice)
  {
    var dir := Directory(Some([Member("", alice)]), None);
    assert "ali" <= alice.username;
    ResolveFirstMember(dir, "@ali", 0);
  }

  /** In the private-channel fallback the recipient's username must be a
      prefix of the name: `@ali` does not reach recipient "alicia". */
  lemma RecipientDirectionShortName(alicia: User)
    requires alicia.username == "alicia"
    ensures Resolve(Directory(Some([]), Some([DmChannel([alicia])])), "@ali") == "@ali"
  {
    var dir := Directory(Some([]), Some([DmChannel([alicia])]));
    assert !("alicia" <= "ali");
    ResolveUnchanged(dir, "@ali");
  }

  /** ... while `@alicia_x` does. */
  lemma RecipientDirectionLongName(alicia: User)
    requires alicia.username == "alicia"
    ensures Resolve(Directory(Some([]), Some([DmChannel([alicia])])), "@alicia_x") == Mention(alicia)
  {
    var dir := Directory(Some([]), Some([DmChannel([alicia])]));
    assert "alicia" <= "alicia_x";
    ResolveFirstRecipient(dir, "@alicia_x", 0, 0);
  }

  /** A token in the middle of a line is replaced by its resolution, and the
      text on either side is rewritten as if it stood alone. */
  lemma ParseForMentionsAroundToken(a: string, name: string, b: string, dir: Directory)
    requires |name| > 0 && AllWord(name)
    requires b == [] || !IsWordChar(b[0])
    ensures ParseForMentions(a + "@" + name + b, dir) == ParseForMentions(a, dir) + Resolve(dir, "@" + name) + ParseForMentions(b, dir)
  {
    var t := "@" + name + b;
    var pa, pb := Tokenize(a), Tokenize(b);
    assert a + "@" + name + b == a + t;
    assert Tokenize(a + t) == pa + ([At(name)] + pb) by {
      TokenizeConcat(a, t);
      TokenizeToken(name, b);
    }
    assert Render(pa + ([At(name)] + pb), dir) == Render(pa, dir) + (Resolve(dir, "@" + name) + Render(pb, dir)) by {
      RenderConcat(pa, [At(name)] + pb, dir);
      RenderConcat([At(name)], pb, dir);
      assert Render([At(name)], dir) == Resolve(dir, "@" + name) + Render([], dir);
    }
  }
}
