/** `ParseForEmoji`: guild emoji written `<:name:digits>` are shortened to
    `:name:` (`regexp "<(:\w+:)[0-9]+>"` replaced by `$1`). */
module Emoji {
  import opened Wrappers
  import opened Text

  /** The text cut into single bytes and custom-emoji references. */
  datatype Piece = Char(c: char) | Custom(name: string, id: string)

  /** The text `<:name:id>` of a custom-emoji reference. */
  function Reference(name: string, id: string): string {
    "<:" + name + ":" + id + ">"
  }

  /** `<(:\w+:)[0-9]+>` matched at the start of `s`: the name and the digits.
      Neither run can be shortened, since the byte after a shorter `\w+` is a
      word byte, not `:`, and the byte after shorter digits is a digit, not
      `>`; so the match at a given start is unique. */
  function EmojiAt(s: string): Option<(string, string)> {
    if |s| >= 2 && s[0] == '<' && s[1] == ':' then
      var n := WordRun(s[2..]);
      if n > 0 && 2 + n < |s| && s[2 + n] == ':' then
        var d := DigitRun(s[3 + n..]);
        if d > 0 && 3 + n + d < |s| && s[3 + n + d] == '>' then Some((s[2..2 + n], s[3 + n..3 + n + d]))
        else None
      else None
    else None
  }

  /** A well-formed reference at the start of a text is found, with its parts. */
  lemma EmojiAtFinds(s: string, name: string, id: string)
    requires |name| > 0 && AllWord(name) && |id| > 0 && AllDigits(id)
    requires HasPrefix(s, Reference(name, id))
    ensures EmojiAt(s) == Some((name, id))
  {
    var rest := s[|Reference(name, id)|..];
    assert s == Reference(name, id) + rest;
    assert s[2..] == name + ([':'] + id + ">" + rest);
    WordRunOf(name, [':'] + id + ">" + rest);
    assert s[3 + |name|..] == id + (">" + rest);
    DigitRunOf(id, ">" + rest);
    assert s[2..2 + |name|] == name;
    assert s[3 + |name|..3 + |name| + |id|] == id;
  }

  /** What `EmojiAt` finds is a well-formed reference at the start of the text. */
  lemma EmojiAtSound(s: string)
    requires EmojiAt(s).Some?
    ensures var (name, id) := EmojiAt(s).value;
      |name| > 0 && AllWord(name) && |id| > 0 && AllDigits(id) && HasPrefix(s, Reference(name, id))
  {
    var n := WordRun(s[2..]);
    var d := DigitRun(s[3 + n..]);
    var (name, id) := EmojiAt(s).value;
    WordRunSpec(s[2..]);
    DigitRunSpec(s[3 + n..]);
    assert s[2..][..n] == name;
    assert s[3 + n..][..d] == id;
    assert s[..4 + n + d] == Reference(name, id);
  }

  /** `EmojiAt` finds exactly the well-formed references at the start of a text. */
  lemma EmojiAtSpec(s: string, name: string, id: string)
    ensures EmojiAt(s) == Some((name, id)) <==>
      |name| > 0 && AllWord(name) && |id| > 0 && AllDigits(id) && HasPrefix(s, Reference(name, id))
  {
    if |name| > 0 && AllWord(name) && |id| > 0 && AllDigits(id) && HasPrefix(s, Reference(name, id)) {
      EmojiAtFinds(s, name, id);
    }
    if EmojiAt(s) == Some((name, id)) {
      EmojiAtSound(s);
    }
  }

  function RawPiece(p: Piece): string {
    match p
    case Char(c) => [c]
    case Custom(name, id) => Reference(name, id)
  }

  /** The text the pieces stand for. */
  function Raw(ps: seq<Piece>): string {
    if |ps| == 0 then "" else RawPiece(ps[0]) + Raw(ps[1..])
  }

  /** Leftmost scan for references; after one, the scan resumes behind it. */
  function Tokenize(s: string): seq<Piece>
    decreases |s|
  {
    if |s| == 0 then []
    else
      match EmojiAt(s)
      case Some((name, id)) =>
        assert |Reference(name, id)| <= |s| by { EmojiAtSpec(s, name, id); }
        [Custom(name, id)] + Tokenize(s[|Reference(name, id)|..])
      case None => [Char(s[0])] + Tokenize(s[1..])
  }

  /** The cut of a text that starts with a reference. */
  lemma TokenizeCustomFirst(s: string)
    requires |s| > 0 && EmojiAt(s).Some?
    ensures var (name, id) := EmojiAt(s).value;
      |Reference(name, id)| <= |s| && Tokenize(s) == [Custom(name, id)] + Tokenize(s[|Reference(name, id)|..])
  {
  }

  /** The cut of a text that starts with a plain byte. */
  lemma TokenizeCharFirst(s: string)
    requires |s| > 0 && EmojiAt(s).None?
    ensures Tokenize(s) == [Char(s[0])] + Tokenize(s[1..])
  {
  }

  /** Every reference is well formed, and no plain byte starts a reference. */
  predicate WellFormed(ps: seq<Piece>) {
    forall i :: 0 <= i < |ps| ==>
      match ps[i]
      case Custom(name, id) => |name| > 0 && AllWord(name) && |id| > 0 && AllDigits(id)
      case Char(_) => EmojiAt(Raw(ps[i..])).None?
  }

  /** The colons and the name are kept; brackets and the numeric ID go. */
  function Render(ps: seq<Piece>): string {
    if |ps| == 0 then ""
    else
      (match ps[0]
       case Char(c) => [c]
       case Custom(name, _) => ":" + name + ":") + Render(ps[1..])
  }

  /** Cutting loses and invents nothing. */
  lemma {:induction false} TokenizeRaw(s: string)
    ensures Raw(Tokenize(s)) == s
    decreases |s|
  {
    if |s| > 0 {
      var ps := Tokenize(s);
      var k := if EmojiAt(s).Some? then |Reference(EmojiAt(s).value.0, EmojiAt(s).value.1)| else 1;
      assert 0 < k <= |s| && RawPiece(ps[0]) == s[..k] && ps[1..] == Tokenize(s[k..]) by {
        if EmojiAt(s).Some? {
          var (name, id) := EmojiAt(s).value;
          EmojiAtSpec(s, name, id);
          TokenizeCustomFirst(s);
        } else {
          TokenizeCharFirst(s);
        }
      }
      TokenizeRaw(s[k..]);
      assert Raw(ps) == RawPiece(ps[0]) + Raw(ps[1..]);
      SliceSplit(s, 0, k);
      assert s[0..] == s;
    }
  }

  /** The cut `Tokenize` makes misses no reference. */
  lemma {:induction false} TokenizeWellFormed(s: string)
    ensures WellFormed(Tokenize(s))
    decreases |s|
  {
    if |s| > 0 {
      var ps := Tokenize(s);
      var rest: string;
      match EmojiAt(s) {
        case Some((name, id)) =>
          EmojiAtSpec(s, name, id);
          rest := s[|Reference(name, id)|..];
        case None =>
          rest := s[1..];
          TokenizeRaw(s);
          assert ps[0..] == ps;
      }
      TokenizeWellFormed(rest);
      assert ps[1..] == Tokenize(rest);
      forall i | 1 <= i < |ps| ensures ps[i..] == Tokenize(rest)[i - 1..] && ps[i] == Tokenize(rest)[i - 1] { }
    }
  }

  /** Any cut that misses no reference is the one `Tokenize` makes: with
      `TokenizeRaw`, `Tokenize` and `Raw` are inverse on well-formed cuts. */
  lemma {:induction false} TokenizeUnique(ps: seq<Piece>)
    requires WellFormed(ps)
    ensures Tokenize(Raw(ps)) == ps
  {
    if |ps| > 0 {
      var s := Raw(ps);
      var rest := ps[1..];
      assert WellFormed(rest) by {
        forall i | 0 <= i < |rest| ensures rest[i] == ps[i + 1] && rest[i..] == ps[i + 1..] { }
      }
      TokenizeUnique(rest);
      assert s == RawPiece(ps[0]) + Raw(rest);
      match ps[0]
      case Custom(name, id) =>
        EmojiAtSpec(s, name, id);
        assert s[|Reference(name, id)|..] == Raw(rest);
      case Char(c) =>
        assert ps[0..] == ps;
        assert s[1..] == Raw(rest);
    }
  }

  lemma {:induction false} RenderFixed(ps: seq<Piece>)
    ensures (forall i :: 0 <= i < |ps| ==> ps[i].Char?) ==> Render(ps) == Raw(ps)
  {
    if |ps| > 0 {
      RenderFixed(ps[1..]);
    }
  }

  /** Each rewrite removes at least the two brackets and one digit. */
  lemma {:induction false} RenderShrinks(ps: seq<Piece>)
    ensures |Render(ps)| <= |Raw(ps)|
    ensures (exists i :: 0 <= i < |ps| && ps[i].Custom? && |ps[i].id| > 0) ==> |Render(ps)| < |Raw(ps)|
  {
    if |ps| > 0 {
      RenderShrinks(ps[1..]);
      assert forall i :: 1 <= i < |ps| ==> ps[i] == ps[1..][i - 1];
    }
  }

  /** `ParseForEmoji` (main.go:217-225). */
  function ParseForEmoji(line: string): (r: string)
    ensures |r| <= |line|
    ensures (forall j :: 0 <= j <= |line| ==> EmojiAt(line[j..]).None?) ==> r == line
  {
    TokenizeRaw(line);
    RenderShrinks(Tokenize(line));
    NoReferenceNoCustom(line);
    RenderFixed(Tokenize(line));
    Render(Tokenize(line))
  }

  /** A text with no reference anywhere is cut into plain bytes only. */
  lemma {:induction false} NoReferenceNoCustom(s: string)
    ensures (forall j :: 0 <= j <= |s| ==> EmojiAt(s[j..]).None?) ==> forall i :: 0 <= i < |Tokenize(s)| ==> Tokenize(s)[i].Char?
    decreases |s|
  {
    if |s| > 0 && forall j :: 0 <= j <= |s| ==> EmojiAt(s[j..]).None? {
      assert s[0..] == s;
      var rest := s[1..];
      assert forall j :: 0 <= j <= |rest| ==> rest[j..] == s[j + 1..];
      NoReferenceNoCustom(rest);
    }
  }

  /** No byte of a reference after its first one is `<`. */
  lemma ReferenceTail(name: string, id: string)
    requires AllWord(name) && AllDigits(id)
    ensures forall i :: 1 <= i < |Reference(name, id)| ==> Reference(name, id)[i] != '<'
  {
    var ref := Reference(name, id);
    forall i | 1 <= i < |ref| ensures ref[i] != '<' {
      if 2 <= i < 2 + |name| {
        assert ref[i] == name[i - 2];
      } else if 3 + |name| <= i < 3 + |name| + |id| {
        assert ref[i] == id[i - 3 - |name|];
      }
    }
  }

  /** A prefix of `x + t` longer than `x` has `t`'s first byte at index `|x|`. */
  lemma PrefixAcross(ref: string, x: string, t: string)
    requires ref <= x + t
    ensures |ref| > |x| ==> ref[|x|] == t[0]
  {
    if |ref| > |x| {
      assert ref[|x|] == (x + t)[|x|];
    }
  }

  /** A prefix of `x + t` with no `<` after its first byte, where `t` starts
      with `<`, lies within `x`. */
  lemma PrefixBeforeAngle(ref: string, x: string, t: string)
    requires |x| > 0 && (t == [] || t[0] == '<')
    requires ref <= x + t
    requires forall i :: 1 <= i < |ref| ==> ref[i] != '<'
    ensures ref <= x
  {
    PrefixAcross(ref, x, t);
    assert |ref| <= |x|;
    assert (x + t)[..|ref|] == x[..|ref|];
  }

  /** A match cannot run into text that starts with `<`. */
  lemma EmojiAtAppend(x: string, t: string)
    requires |x| > 0 && (t == [] || t[0] == '<')
    ensures EmojiAt(x + t) == EmojiAt(x)
  {
    if EmojiAt(x + t).Some? {
      var (name, id) := EmojiAt(x + t).value;
      EmojiAtSpec(x + t, name, id);
      ReferenceTail(name, id);
      var ref := Reference(name, id);
      PrefixBeforeAngle(ref, x, t);
      EmojiAtSpec(x, name, id);
    }
    if EmojiAt(x).Some? {
      var (name, id) := EmojiAt(x).value;
      EmojiAtSpec(x, name, id);
      EmojiAtSpec(x + t, name, id);
    }
  }

  /** The scan restarts cleanly at a `<`: text before it is cut as if it
      stood alone, since a reference has no `<` after its first byte. */
  lemma {:induction false} TokenizeConcat(a: string, t: string)
    requires t == [] || t[0] == '<'
    ensures Tokenize(a + t) == Tokenize(a) + Tokenize(t)
    decreases |a|
  {
    if a == [] {
      assert a + t == t;
    } else {
      EmojiAtAppend(a, t);
      match EmojiAt(a)
      case Some((name, id)) =>
        EmojiAtSpec(a, name, id);
        var k := |Reference(name, id)|;
        TokenizeConcat(a[k..], t);
        TokenizeConcatCustom(a, t, name, id);
      case None =>
        TokenizeConcat(a[1..], t);
        TokenizeConcatChar(a, t);
    }
  }

  lemma TokenizeConcatCustom(a: string, t: string, name: string, id: string)
    requires |a| > 0 && EmojiAt(a) == Some((name, id)) && EmojiAt(a + t) == EmojiAt(a)
    requires |Reference(name, id)| <= |a|
    requires Tokenize(a[|Reference(name, id)|..] + t) == Tokenize(a[|Reference(name, id)|..]) + Tokenize(t)
    ensures Tokenize(a + t) == Tokenize(a) + Tokenize(t)
  {
    var k := |Reference(name, id)|;
    assert Tokenize(a + t) == [Custom(name, id)] + Tokenize(a[k..] + t) by {
      TokenizeCustomFirst(a + t);
      AppendSlices(a, t, k, k);
    }
    TokenizeCustomFirst(a);
    ConsAppend(Custom(name, id), Tokenize(a + t), Tokenize(a[k..] + t), Tokenize(a), Tokenize(a[k..]), Tokenize(t));
  }

  lemma TokenizeConcatChar(a: string, t: string)
    requires |a| > 0 && EmojiAt(a).None? && EmojiAt(a + t) == EmojiAt(a)
    requires Tokenize(a[1..] + t) == Tokenize(a[1..]) + Tokenize(t)
    ensures Tokenize(a + t) == Tokenize(a) + Tokenize(t)
  {
    assert Tokenize(a + t) == [Char(a[0])] + Tokenize(a[1..] + t) by {
      TokenizeCharFirst(a + t);
      AppendSlices(a, t, 1, 1);
    }
    TokenizeCharFirst(a);
    ConsAppend(Char(a[0]), Tokenize(a + t), Tokenize(a[1..] + t), Tokenize(a), Tokenize(a[1..]), Tokenize(t));
  }

  /** A text that starts with a given reference is cut there first. */
  lemma TokenizeReferenceFirst(name: string, id: string, b: string)
    requires |name| > 0 && AllWord(name) && |id| > 0 && AllDigits(id)
    ensures Tokenize(Reference(name, id) + b) == [Custom(name, id)] + Tokenize(b)
  {
    var t := Reference(name, id) + b;
    EmojiAtFinds(t, name, id);
    assert t[|Reference(name, id)|..] == b;
  }

  /** A reference anywhere in a text becomes `:name:`, and the text on
      either side is rewritten as if it stood alone. */
  lemma ParseForEmojiAroundReference(a: string, name: string, id: string, b: string)
    requires |name| > 0 && AllWord(name) && |id| > 0 && AllDigits(id)
    ensures ParseForEmoji(a + Reference(name, id) + b) == ParseForEmoji(a) + ":" + name + ":" + ParseForEmoji(b)
  {
    var t := Reference(name, id) + b;
    var pa, pb := Tokenize(a), Tokenize(b);
    assert Tokenize(a + Reference(name, id) + b) == pa + ([Custom(name, id)] + pb) by {
      assert a + Reference(name, id) + b == a + t;
      TokenizeConcat(a, t);
      TokenizeReferenceFirst(name, id, b);
    }
    assert Render(pa + ([Custom(name, id)] + pb)) == Render(pa) + ":" + name + ":" + Render(pb) by {
      RenderConcat(pa, [Custom(name, id)] + pb);
      RenderConcat([Custom(name, id)], pb);
      assert Render([Custom(name, id)]) == ":" + name + ":";
    }
  }

  lemma {:induction false} RenderConcat(a: seq<Piece>, b: seq<Piece>)
    ensures Render(a + b) == Render(a) + Render(b)
  {
    if a == [] {
      assert a + b == b;
    } else {
      assert (a + b)[1..] == a[1..] + b;
      RenderConcat(a[1..], b);
    }
  }
}
