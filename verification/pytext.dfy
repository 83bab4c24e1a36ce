/** The parts of Python's string and sequence semantics that the modelled code
    relies on: `str.isspace`, `str.lower` (on ASCII), `str.split()` on
    whitespace runs, `str.split(sep)`, `sep.join`, and slicing with `[:n]`,
    `[n:]` and `[lo:hi]`. */
module PyText {
  import opened Results

  /* ---------------------------------------------------------------------- */
  /* Whitespace and case                                                     */
  /* ---------------------------------------------------------------------- */

  /** The characters for which Python's `str.isspace()` holds; `str.split()`
      with no argument separates on runs of exactly these. */
  predicate IsSpace(c: char) {
    var n := c as int;
    || (9 <= n <= 13)
    || (28 <= n <= 32)
    || n == 0x85 || n == 0xA0 || n == 0x1680
    || (0x2000 <= n <= 0x200A)
    || n == 0x2028 || n == 0x2029 || n == 0x202F || n == 0x205F || n == 0x3000
  }

  /** True when no character of `w` is whitespace. */
  predicate NoSpace(w: string) {
    forall i :: 0 <= i < |w| ==> !IsSpace(w[i])
  }

  /** True when every character of `s` is whitespace. */
  predicate AllSpace(s: string) {
    forall i :: 0 <= i < |s| ==> IsSpace(s[i])
  }

  /** `str.lower()` on one character, restricted to the ASCII letters. */
  function LowerChar(c: char): (r: char)
    ensures IsSpace(r) <==> IsSpace(c)
    ensures !('A' <= r <= 'Z')
  {
    if 'A' <= c <= 'Z' then (c as int + 32) as char else c
  }

  /** `str.lower()`: maps every ASCII capital to its lower-case letter and
      leaves every other character alone. */
  function Lower(s: string): (r: string)
    ensures |r| == |s|
    ensures forall i :: 0 <= i < |s| ==> r[i] == LowerChar(s[i])
  {
    seq(|s|, i requires 0 <= i < |s| => LowerChar(s[i]))
  }

  /* ---------------------------------------------------------------------- */
  /* str.split() with no argument                                            */
  /* ---------------------------------------------------------------------- */

  /** Length of the whitespace run that starts `s`. */
  function SpaceRun(s: string): (n: nat)
    ensures n <= |s|
    ensures forall i :: 0 <= i < n ==> IsSpace(s[i])
    ensures n == |s| || !IsSpace(s[n])
  {
    if |s| > 0 && IsSpace(s[0]) then 1 + SpaceRun(s[1..]) else 0
  }

  /** Length of the non-whitespace run that starts `s`. */
  function WordRun(s: string): (n: nat)
    ensures n <= |s|
    ensures forall i :: 0 <= i < n ==> !IsSpace(s[i])
    ensures n == |s| || IsSpace(s[n])
  {
    if |s| > 0 && !IsSpace(s[0]) then 1 + WordRun(s[1..]) else 0
  }

  /** `s.split()`: the maximal runs of non-whitespace characters, in order;
      leading, trailing and repeated whitespace produce no empty words. */
  function Words(s: string): (ws: seq<string>)
    ensures forall j :: 0 <= j < |ws| ==> |ws[j]| > 0 && NoSpace(ws[j])
    decreases |s|
  {
    var k := SpaceRun(s);
    var t := s[k..];
    if |t| == 0 then []
    else
      var n := WordRun(t);
      assert t[0] == s[k] && n > 0;
      assert NoSpace(t[..n]);
      [t[..n]] + Words(t[n..])
  }

  /** `sep.join(pieces)`. */
  function Join(pieces: seq<string>, sep: string): string
  {
    if |pieces| == 0 then ""
    else if |pieces| == 1 then pieces[0]
    else pieces[0] + sep + Join(pieces[1..], sep)
  }

  /** A whitespace-only (or empty) string has no words, and a string with no
      words is whitespace only. */
  lemma {:induction false} WordsEmptyIff(s: string)
    ensures Words(s) == [] <==> AllSpace(s)
  {
    if AllSpace(s) {
      assert SpaceRun(s) == |s|;
    }
  }

  /** A leading whitespace character does not change the words. */
  lemma {:induction false} WordsSkipSpace(s: string)
    requires |s| > 0 && IsSpace(s[0])
    ensures Words(s) == Words(s[1..])
  {
    assert SpaceRun(s) == 1 + SpaceRun(s[1..]);
    assert s[SpaceRun(s)..] == s[1..][SpaceRun(s[1..])..];
  }

  /** A word with nothing but non-whitespace after it is read back whole. */
  lemma {:induction false} WordRunOfWord(w: string, rest: string)
    requires NoSpace(w)
    requires |rest| == 0 || IsSpace(rest[0])
    ensures WordRun(w + rest) == |w|
    decreases |w|
  {
    if |w| > 0 {
      assert (w + rest)[0] == w[0];
      assert (w + rest)[1..] == w[1..] + rest;
      WordRunOfWord(w[1..], rest);
    } else {
      assert w + rest == rest;
    }
  }

  /** A word followed by nothing or by whitespace is the first word. */
  lemma {:induction false} WordsStep(w: string, rest: string)
    requires |w| > 0 && NoSpace(w)
    requires |rest| == 0 || IsSpace(rest[0])
    ensures Words(w + rest) == [w] + Words(rest)
  {
    var s := w + rest;
    assert s[0] == w[0];
    assert SpaceRun(s) == 0;
    assert s[SpaceRun(s)..] == s;
    WordRunOfWord(w, rest);
    assert s[..|w|] == w;
    assert s[|w|..] == rest;
  }

  /** Joining at least two words: the first word, then the words of the
      rest. */
  lemma {:induction false} WordsOfJoinCons(ws: seq<string>)
    requires |ws| > 1 && |ws[0]| > 0 && NoSpace(ws[0])
    ensures Words(Join(ws, " ")) == [ws[0]] + Words(Join(ws[1..], " "))
  {
    var tail := Join(ws[1..], " ");
    var rest := " " + tail;
    assert Join(ws, " ") == ws[0] + rest;
    WordsStep(ws[0], rest);
    WordsSkipSpace(rest);
    assert rest[1..] == tail;
  }

  /** A non-empty sequence is its head followed by its tail. */
  lemma ConsTail<T>(s: seq<T>)
    requires |s| > 0
    ensures [s[0]] + s[1..] == s
  {
  }

  /** A single word is its own only word. */
  lemma {:induction false} WordsOfOne(w: string)
    requires |w| > 0 && NoSpace(w)
    ensures Words(Join([w], " ")) == [w]
  {
    WordsStep(w, "");
    assert w + "" == w;
    assert Words("") == [];
  }

  /** Round trip: splitting words joined by single spaces gives the words
      back, provided each word is non-empty and contains no whitespace. */
  lemma {:induction false} WordsOfJoin(ws: seq<string>)
    requires forall j :: 0 <= j < |ws| ==> |ws[j]| > 0 && NoSpace(ws[j])
    ensures Words(Join(ws, " ")) == ws
  {
    if |ws| == 1 {
      WordsOfOne(ws[0]);
    } else if |ws| > 1 {
      WordsOfJoinCons(ws);
      WordsOfJoin(ws[1..]);
      ConsTail(ws);
    }
  }

  /* ---------------------------------------------------------------------- */
  /* Substring search and str.split(sep)                                     */
  /* ---------------------------------------------------------------------- */

  /** `t` occurs in `s` starting at position `i`. */
  predicate OccursAt(s: string, t: string, i: nat) {
    i + |t| <= |s| && s[i..i + |t|] == t
  }

  /** `t in s`. */
  predicate Contains(s: string, t: string) {
    exists i: nat | i <= |s| :: OccursAt(s, t, i)
  }

  /** `s.find(t, from)`: the leftmost occurrence of `t` at or after `from`. */
  function FindFrom(s: string, t: string, from: nat): (r: Option<nat>)
    requires from <= |s|
    ensures r.Some? ==> from <= r.value && r.value + |t| <= |s|
    decreases |s| - from
  {
    if from + |t| > |s| then None
    else if s[from..from + |t|] == t then Some(from)
    else FindFrom(s, t, from + 1)
  }

  /** The position `FindFrom` returns is an occurrence with none before it
      from `from` on; `None` means there is no occurrence from `from` on. */
  lemma {:induction false} FindFromSpec(s: string, t: string, from: nat)
    requires from <= |s|
    ensures var r := FindFrom(s, t, from);
      r.Some? ==> OccursAt(s, t, r.value) && forall j: nat :: from <= j < r.value ==> !OccursAt(s, t, j)
    ensures FindFrom(s, t, from).None? ==> forall j: nat :: from <= j ==> !OccursAt(s, t, j)
    decreases |s| - from
  {
    if from + |t| > |s| {
    } else if s[from..from + |t|] == t {
    } else {
      FindFromSpec(s, t, from + 1);
    }
  }

  /** An occurrence inside a prefix is an occurrence in the whole string. */
  lemma OccursInPrefix(s: string, t: string, i: nat, j: nat)
    requires i <= |s|
    requires OccursAt(s[..i], t, j)
    ensures OccursAt(s, t, j)
  {
    assert s[..i][j..j + |t|] == s[j..j + |t|];
  }

  /** `s.split(sep)` for a non-empty separator: the pieces between the
      non-overlapping occurrences of `sep`, scanning from the left. Python
      raises `ValueError` on an empty separator. */
  function Split(s: string, sep: string): (pieces: seq<string>)
    requires |sep| > 0
    ensures |pieces| >= 1
    decreases |s|
  {
    match FindFrom(s, sep, 0)
    case None => [s]
    case Some(i) => [s[..i]] + Split(s[i + |sep|..], sep)
  }

  /** No piece of a split contains the separator. */
  lemma {:induction false} SplitPiecesFree(s: string, sep: string)
    requires |sep| > 0
    ensures forall j :: 0 <= j < |Split(s, sep)| ==> !Contains(Split(s, sep)[j], sep)
    decreases |s|
  {
    FindFromSpec(s, sep, 0);
    match FindFrom(s, sep, 0)
    case None =>
      assert Split(s, sep) == [s];
    case Some(i) =>
      var p := Split(s, sep);
      var rest := s[i + |sep|..];
      SplitPiecesFree(rest, sep);
      assert p == [s[..i]] + Split(rest, sep);
      if Contains(s[..i], sep) {
        var k: nat :| OccursAt(s[..i], sep, k);
        OccursInPrefix(s, sep, i, k);
        assert false;
      }
      forall j | 0 <= j < |p|
        ensures !Contains(p[j], sep)
      {
        if j > 0 {
          assert p[j] == Split(rest, sep)[j - 1];
        }
      }
  }

  /** Round trip: joining the pieces of `s.split(sep)` with `sep` gives `s`. */
  lemma {:induction false} JoinOfSplit(s: string, sep: string)
    requires |sep| > 0
    ensures Join(Split(s, sep), sep) == s
    decreases |s|
  {
    FindFromSpec(s, sep, 0);
    var f := FindFrom(s, sep, 0);
    if f.None? {
      assert Split(s, sep) == [s];
    } else {
      var i := f.value;
      var rest := s[i + |sep|..];
      var ps := Split(rest, sep);
      assert Split(s, sep) == [s[..i]] + ps;
      JoinOfSplit(rest, sep);
      JoinCons(s[..i], ps, sep);
      assert Join(Split(s, sep), sep) == s[..i] + sep + rest;
      assert s[i..i + |sep|] == sep;
      assert s == s[..i] + s[i..i + |sep|] + rest;
    }
  }

  /** Joining a list with at least two pieces puts `sep` after the first. */
  lemma {:induction false} JoinCons(a: string, ps: seq<string>, sep: string)
    requires |ps| >= 1
    ensures Join([a] + ps, sep) == a + sep + Join(ps, sep)
  {
    assert ([a] + ps)[1..] == ps;
  }

  /** `s.split(sep)[0]`: the text before the first occurrence of `sep`, or
      all of `s` when `sep` does not occur. */
  lemma {:induction false} SplitFirst(s: string, sep: string)
    requires |sep| > 0
    ensures var p := Split(s, sep)[0];
      && |p| <= |s| && s[..|p|] == p
      && (forall j: nat :: j < |p| ==> !OccursAt(s, sep, j))
      && (|p| < |s| ==> OccursAt(s, sep, |p|))
      && (!Contains(s, sep) <==> p == s)
  {
    FindFromSpec(s, sep, 0);
    match FindFrom(s, sep, 0)
    case None =>
    case Some(i) =>
      assert Split(s, sep)[0] == s[..i];
  }

  /** When `sep` does not occur, `s.split(sep)` is `[s]`. */
  lemma {:induction false} SplitWithoutSep(s: string, sep: string)
    requires |sep| > 0
    requires !Contains(s, sep)
    ensures Split(s, sep) == [s]
  {
    FindFromSpec(s, sep, 0);
    var f := FindFrom(s, sep, 0);
    if f.Some? {
      assert false;
    }
  }

  /** One step of the split: the text before the first occurrence, then
      the split of what follows it. */
  lemma {:induction false} SplitStep(s: string, sep: string, i: nat)
    requires |sep| > 0 && FindFrom(s, sep, 0) == Some(i)
    ensures i + |sep| <= |s|
    ensures Split(s, sep) == [s[..i]] + Split(s[i + |sep|..], sep)
  {
    var rest := s[i + |sep|..];
    assert Split(s, sep) == [s[..i]] + Split(rest, sep);
  }

  /** `s.endswith(e)`. */
  predicate EndsWith(s: string, e: string) {
    |e| <= |s| && s[|s| - |e|..] == e
  }

  /** Whatever ends a suffix of `s` ends `s`. */
  lemma SuffixOfSuffix(s: string, k: nat, e: string)
    requires k <= |s| && EndsWith(s[k..], e)
    ensures EndsWith(s, e)
  {
    assert s[k..][|s| - k - |e|..] == s[|s| - |e|..];
  }

  /** The split of `s` and the split of what follows its first occurrence
      of `sep` end with the same piece. */
  lemma {:induction false} SplitLastOfStep(s: string, sep: string, i: nat)
    requires |sep| > 0 && FindFrom(s, sep, 0) == Some(i)
    ensures var ps := Split(s, sep); var qs := Split(s[i + |sep|..], sep);
      ps[|ps| - 1] == qs[|qs| - 1]
  {
    SplitStep(s, sep, i);
  }

  /** `s` ends with its first occurrence of `sep` and the rest of `s`. */
  lemma {:induction false} FirstOccurrenceSuffix(s: string, sep: string, i: nat)
    requires |sep| > 0 && FindFrom(s, sep, 0) == Some(i)
    ensures EndsWith(s, sep + s[i + |sep|..])
  {
    FindFromSpec(s, sep, 0);
    assert s[i..i + |sep|] == sep;
    assert s[i..] == s[i..i + |sep|] + s[i + |sep|..];
  }

  /** `find` succeeds on a string that contains `t`. */
  lemma FindWhenContains(s: string, t: string)
    requires Contains(s, t)
    ensures FindFrom(s, t, 0).Some?
  {
    FindFromSpec(s, t, 0);
  }

  /** When `sep` occurs, `s` ends with `sep` followed by the last piece. */
  lemma {:induction false} SplitLastSuffix(s: string, sep: string)
    requires |sep| > 0
    requires Contains(s, sep)
    ensures var ps := Split(s, sep); EndsWith(s, sep + ps[|ps| - 1])
    decreases |s|
  {
    FindWhenContains(s, sep);
    var f := FindFrom(s, sep, 0);
    if f.Some? {
      var i := f.value;
      var rest := s[i + |sep|..];
      var qs := Split(rest, sep);
      SplitLastOfStep(s, sep, i);
      if Contains(rest, sep) {
        SplitLastSuffix(rest, sep);
        SuffixOfSuffix(s, i + |sep|, sep + qs[|qs| - 1]);
      } else {
        SplitWithoutSep(rest, sep);
        FirstOccurrenceSuffix(s, sep, i);
      }
    }
  }

  /** `s.split(sep)[-1]`: the last piece contains no `sep`, and when `sep`
      occurs in `s` the string ends with `sep` followed by that piece;
      otherwise the only piece is `s` itself. */
  lemma {:induction false} SplitLast(s: string, sep: string)
    requires |sep| > 0
    ensures var ps := Split(s, sep); var l := ps[|ps| - 1];
      && !Contains(l, sep)
      && (Contains(s, sep) ==> EndsWith(s, sep + l))
      && (!Contains(s, sep) ==> ps == [s])
  {
    SplitPiecesFree(s, sep);
    if Contains(s, sep) {
      SplitLastSuffix(s, sep);
    } else {
      SplitWithoutSep(s, sep);
    }
  }

  /** No proper suffix of `t` is also a prefix of `t`, so two occurrences
      of `t` never overlap. */
  predicate Unbordered(t: string) {
    forall d :: 0 < d < |t| ==> t[d..] != t[..|t| - d]
  }

  /** Occurrences at or after `k` are occurrences in the suffix `s[k..]`. */
  lemma OccursAtShift(s: string, t: string, k: nat, p: nat)
    requires k <= p && k <= |s|
    ensures OccursAt(s, t, p) <==> OccursAt(s[k..], t, p - k)
  {
    if p + |t| <= |s| {
      assert s[k..][p - k..p - k + |t|] == s[p..p + |t|];
    }
  }

  /** Two occurrences of an unbordered string never overlap. */
  lemma NoOverlap(s: string, t: string, j: nat, p: nat)
    requires Unbordered(t) && OccursAt(s, t, j) && j < p < j + |t|
    ensures !OccursAt(s, t, p)
  {
    if p + |t| <= |s| {
      var d := p - j;
      assert t[d..] == s[p..j + |t|];
      assert s[p..p + |t|][..|t| - d] == s[p..j + |t|];
      assert t[d..] != t[..|t| - d];
    }
  }

  /** For a separator that cannot overlap itself, the last piece of a split
      is exactly the text after the last occurrence of the separator. */
  lemma {:induction false} LastPieceAfterLastOccurrence(s: string, sep: string)
    requires |sep| > 0 && Unbordered(sep) && Contains(s, sep)
    ensures var ps := Split(s, sep); var l := ps[|ps| - 1];
      && |sep| + |l| <= |s|
      && OccursAt(s, sep, |s| - |l| - |sep|)
      && (forall p: nat :: |s| - |l| - |sep| < p ==> !OccursAt(s, sep, p))
      && l == s[|s| - |l|..]
  {
    SplitLast(s, sep);
    var ps := Split(s, sep);
    var l := ps[|ps| - 1];
    var k := |s| - |l|;
    var j := k - |sep|;
    assert EndsWith(s, sep + l);
    assert s[j..] == sep + l;
    assert s[j..j + |sep|] == sep;
    assert l == s[k..];
    forall p: nat | j < p
      ensures !OccursAt(s, sep, p)
    {
      if p >= k {
        OccursAtShift(s, sep, k, p);
        assert !OccursAt(l, sep, p - k) by {
          if p - k <= |l| {
          }
        }
      } else {
        NoOverlap(s, sep, j, p);
      }
    }
  }

  /** Text after a final occurrence of an unbordered separator is the last
      piece of the split. */
  lemma {:induction false} LastPieceAfter(before: string, sep: string, u: string)
    requires |sep| > 0 && Unbordered(sep) && !Contains(u, sep)
    ensures var ps := Split(before + sep + u, sep); ps[|ps| - 1] == u
  {
    var s := before + sep + u;
    var m := |before| + |sep|;
    assert s[|before|..m] == sep;
    assert s[m..] == u;
    assert OccursAt(s, sep, |before|);
    LastPieceAfterLastOccurrence(s, sep);
    var ps := Split(s, sep);
    var tail := ps[|ps| - 1];
    var j := |s| - |tail| - |sep|;
    forall p: nat | |before| < p
      ensures !OccursAt(s, sep, p)
    {
      if p >= m {
        OccursAtShift(s, sep, m, p);
      } else {
        NoOverlap(s, sep, |before|, p);
      }
    }
    assert j == |before|;
  }

  lemma OneCharInPrefix(w: string, rest: string, sep: string, q: nat)
    requires |sep| == 1 && !Contains(w, sep) && q < |w|
    ensures !OccursAt(w + rest, sep, q)
  {
    assert !OccursAt(w, sep, q);
    assert (w + rest)[q..q + 1] == w[q..q + 1];
  }

  /** `s.split(c)[0]` for a one-character separator, when `s` is `w`
      followed by nothing or by the separator, and `w` holds no separator. */
  lemma {:induction false} FirstPieceOf(w: string, sep: string, rest: string)
    requires |sep| == 1 && !Contains(w, sep)
    requires |rest| == 0 || rest[0] == sep[0]
    ensures Split(w + rest, sep)[0] == w
  {
    var s := w + rest;
    FindFromSpec(s, sep, 0);
    var f := FindFrom(s, sep, 0);
    if f.Some? && f.value < |w| {
      OneCharInPrefix(w, rest, sep, f.value);
    }
    if |rest| > 0 {
      assert s[|w|..|w| + 1] == sep;
      assert OccursAt(s, sep, |w|);
      assert f == Some(|w|);
      assert Split(s, sep)[0] == s[..|w|];
    } else {
      assert s == w;
      assert f.None?;
      assert Split(s, sep) == [s];
    }
  }

  /* ---------------------------------------------------------------------- */
  /* Slicing                                                                 */
  /* ---------------------------------------------------------------------- */

  /** Python's `s[:n]`: a negative `n` counts from the end. */
  function SliceTo<T>(s: seq<T>, n: int): (r: seq<T>)
    ensures |r| == (if n >= 0 then Min(n, |s|) else Max(0, |s| + n))
    ensures r == s[..|r|]
  {
    if n >= 0 then (if n <= |s| then s[..n] else s)
    else if |s| + n >= 0 then s[..|s| + n]
    else []
  }

  /** Python's `s[n:]`: a negative `n` counts from the end. */
  function SliceFrom<T>(s: seq<T>, n: int): (r: seq<T>)
    ensures |r| == (if n >= 0 then Max(0, |s| - n) else Min(|s|, -n))
    ensures r == s[|s| - |r|..]
  {
    if n >= 0 then (if n <= |s| then s[n..] else [])
    else if |s| + n >= 0 then s[|s| + n..]
    else s
  }

  /** Python's `s[lo:hi]` for non-negative bounds: both are clamped to the
      length, and a reversed range is empty. */
  function Slice<T>(s: seq<T>, lo: nat, hi: nat): (r: seq<T>)
    ensures lo <= hi <= |s| ==> r == s[lo..hi]
    ensures |r| == Max(0, Min(hi, |s|) - Min(lo, |s|))
  {
    var a := Min(lo, |s|);
    var b := Min(hi, |s|);
    if a <= b then s[a..b] else []
  }
}
