/** Byte-level string helpers shared by the tokenizers and the read loop.
    A `char` stands for one byte of a Go string. Every character class the
    client tests (`\w`, `[0-9]`, the fence, the newline) is ASCII, so no
    decoding is modelled. */
module Text {

  /** RE2's `\w` (ASCII only): [0-9A-Za-z_]. */
  predicate IsWordChar(c: char) {
    ('0' <= c <= '9') || ('A' <= c <= 'Z') || ('a' <= c <= 'z') || c == '_'
  }

  /** The class `[0-9]`. */
  predicate IsDigit(c: char) {
    '0' <= c <= '9'
  }

  predicate AllWord(s: string) {
    forall i :: 0 <= i < |s| ==> IsWordChar(s[i])
  }

  predicate AllDigits(s: string) {
    forall i :: 0 <= i < |s| ==> IsDigit(s[i])
  }

  /** Go's `strings.HasPrefix(s, prefix)`. */
  predicate HasPrefix(s: string, prefix: string) {
    |prefix| <= |s| && s[..|prefix|] == prefix
  }

  /** `pat` occurs in `s` starting at byte `j`. */
  predicate OccursAt(s: string, pat: string, j: nat) {
    j + |pat| <= |s| && s[j..j + |pat|] == pat
  }

  /** Length of the longest prefix of `s` made of word characters:
      what a greedy `\w+` consumes when it can match at all. */
  function WordRun(s: string): (n: nat)
    ensures n <= |s|
  {
    if |s| == 0 || !IsWordChar(s[0]) then 0 else 1 + WordRun(s[1..])
  }

  /** The word run is made of word characters and cannot be extended. */
  lemma {:induction false} WordRunSpec(s: string)
    ensures AllWord(s[..WordRun(s)])
    ensures WordRun(s) < |s| ==> !IsWordChar(s[WordRun(s)])
  {
    if |s| > 0 && IsWordChar(s[0]) {
      WordRunSpec(s[1..]);
      assert forall i :: 1 <= i < WordRun(s) ==> s[..WordRun(s)][i] == s[1..][..WordRun(s[1..])][i - 1];
    }
  }

  /** Length of the longest prefix of `s` made of decimal digits. */
  function DigitRun(s: string): (n: nat)
    ensures n <= |s|
  {
    if |s| == 0 || !IsDigit(s[0]) then 0 else 1 + DigitRun(s[1..])
  }

  /** The digit run is made of digits and cannot be extended. */
  lemma {:induction false} DigitRunSpec(s: string)
    ensures AllDigits(s[..DigitRun(s)])
    ensures DigitRun(s) < |s| ==> !IsDigit(s[DigitRun(s)])
  {
    if |s| > 0 && IsDigit(s[0]) {
      DigitRunSpec(s[1..]);
      assert forall i :: 1 <= i < DigitRun(s) ==> s[..DigitRun(s)][i] == s[1..][..DigitRun(s[1..])][i - 1];
    }
  }

  /** Go's `strings.Index(s, pat)`: the first byte at which `pat` occurs, or -1. */
  function IndexOf(s: string, pat: string): (r: int)
    ensures -1 <= r <= |s|
  {
    if HasPrefix(s, pat) then 0
    else if |s| == 0 then -1
    else
      var k := IndexOf(s[1..], pat);
      if k == -1 then -1 else k + 1
  }

  /** A slice of the tail is a slice of the whole, one byte later. */
  lemma SliceOfTail(s: string, i: nat, j: nat)
    requires |s| > 0 && i <= j <= |s| - 1
    ensures s[1..][i..j] == s[i + 1..j + 1]
  {
  }

  /** An occurrence at `j > 0` is an occurrence at `j - 1` in the tail. */
  lemma OccursShift(s: string, pat: string, j: nat)
    requires 1 <= j <= |s|
    ensures OccursAt(s, pat, j) <==> OccursAt(s[1..], pat, j - 1)
  {
    if j + |pat| <= |s| {
      SliceOfTail(s, j - 1, j - 1 + |pat|);
    }
  }

  /** An occurrence at 0 is a prefix. */
  lemma OccursFirst(s: string, pat: string)
    ensures OccursAt(s, pat, 0) <==> HasPrefix(s, pat)
  {
  }

  /** -1 means `pat` occurs nowhere. */
  lemma {:induction false} IndexOfNone(s: string, pat: string)
    requires IndexOf(s, pat) == -1
    ensures forall j :: 0 <= j <= |s| ==> !OccursAt(s, pat, j)
  {
    OccursFirst(s, pat);
    if |s| > 0 {
      IndexOfNone(s[1..], pat);
      forall j | 1 <= j <= |s| ensures !OccursAt(s, pat, j) {
        OccursShift(s, pat, j);
      }
    }
  }

  /** Any other result is the first place where `pat` occurs. */
  lemma {:induction false} IndexOfFirst(s: string, pat: string)
    requires IndexOf(s, pat) != -1
    ensures OccursAt(s, pat, IndexOf(s, pat))
    ensures forall j :: 0 <= j < IndexOf(s, pat) ==> !OccursAt(s, pat, j)
  {
    OccursFirst(s, pat);
    if !HasPrefix(s, pat) {
      var k := IndexOf(s[1..], pat);
      IndexOfFirst(s[1..], pat);
      OccursShift(s, pat, k + 1);
      forall j | 1 <= j < k + 1 ensures !OccursAt(s, pat, j) {
        OccursShift(s, pat, j);
      }
    }
  }

  /** `IndexOf` is -1 exactly when `pat` occurs nowhere, and otherwise the
      first place where it occurs. */
  lemma IndexOfSpec(s: string, pat: string)
    ensures IndexOf(s, pat) == -1 <==> forall j :: 0 <= j <= |s| ==> !OccursAt(s, pat, j)
    ensures IndexOf(s, pat) >= 0 ==> OccursAt(s, pat, IndexOf(s, pat))
    ensures IndexOf(s, pat) >= 0 ==> forall j :: 0 <= j < IndexOf(s, pat) ==> !OccursAt(s, pat, j)
  {
    if IndexOf(s, pat) == -1 {
      IndexOfNone(s, pat);
    } else {
      IndexOfFirst(s, pat);
    }
  }

  /** A word run is exactly as long as a word prefix that is followed by a non-word byte. */
  lemma {:induction false} WordRunOf(w: string, t: string)
    requires AllWord(w)
    requires t == [] || !IsWordChar(t[0])
    ensures WordRun(w + t) == |w|
  {
    if w == [] {
      assert w + t == t;
    } else {
      assert (w + t)[1..] == w[1..] + t;
      WordRunOf(w[1..], t);
    }
  }

  /** A digit run is exactly as long as a digit prefix that is followed by a non-digit. */
  lemma {:induction false} DigitRunOf(d: string, t: string)
    requires AllDigits(d)
    requires t == [] || !IsDigit(t[0])
    ensures DigitRun(d + t) == |d|
  {
    if d == [] {
      assert d + t == t;
    } else {
      assert (d + t)[1..] == d[1..] + t;
      DigitRunOf(d[1..], t);
    }
  }

  /** The bytes from `i` on are those up to `j` followed by those from `j` on. */
  lemma SliceSplit(s: string, i: nat, j: nat)
    requires i <= j <= |s|
    ensures s[i..] == s[i..j] + s[j..]
  {
  }

  /** Slices of `a + t` that start inside `a`. */
  lemma AppendSlices(a: string, t: string, i: nat, j: nat)
    requires i <= j <= |a|
    ensures (a + t)[i..j] == a[i..j] && (a + t)[j..] == a[j..] + t
  {
  }

  /** Adjacent slices join. */
  lemma SliceJoin(s: string, i: nat, j: nat, k: nat)
    requires i <= j <= k <= |s|
    ensures s[i..k] == s[i..j] + s[j..k]
  {
  }

  /** `x == [h] + y`, `y == p + q` and `z == [h] + p` give `x == z + q`. */
  lemma ConsAppend<T>(h: T, x: seq<T>, y: seq<T>, z: seq<T>, p: seq<T>, q: seq<T>)
    requires x == [h] + y && y == p + q && z == [h] + p
    ensures x == z + q
  {
  }
}
