/** String operations with the meaning Python gives them on `str`:
    whitespace, `find`, `in`, `startswith`/`endswith`, `strip`, `lstrip`,
    `rstrip`, `split()`, `split(c)` and `replace`. */
module TextOps {

  /** A value, or nothing where the source would have raised an error or
      held `None`. */
  datatype Option<T> = None | Some(value: T)

  /** Python's `str.isspace` for one character: the characters that `strip()`
      removes and that `split()` splits on. */
  predicate IsSpace(c: char)
  {
    var n := c as int;
    (9 <= n <= 13) || (0x1C <= n <= 0x20) || n == 0x85 || n == 0xA0 || n == 0x1680
    || (0x2000 <= n <= 0x200A) || n == 0x2028 || n == 0x2029 || n == 0x202F
    || n == 0x205F || n == 0x3000
  }

  /** A non-empty run of non-whitespace characters: what `split()` yields. */
  predicate IsWord(w: string)
  {
    |w| > 0 && forall i :: 0 <= i < |w| ==> !IsSpace(w[i])
  }

  /** Neither end of `s` is whitespace: `s` is its own `strip()`. */
  predicate IsTrimmed(s: string)
  {
    s == [] || (!IsSpace(s[0]) && !IsSpace(s[|s| - 1]))
  }

  predicate StartsWith(s: string, p: string)
  {
    |p| <= |s| && s[..|p|] == p
  }

  predicate EndsWith(s: string, p: string)
  {
    |p| <= |s| && s[|s| - |p|..] == p
  }

  /** `s.find(p)`: the first index at which `p` occurs, or -1. */
  function Find(s: string, p: string): (r: int)
    ensures -1 <= r <= |s|
    ensures r >= 0 ==> r + |p| <= |s|
    decreases |s|
  {
    if StartsWith(s, p) then 0
    else if |s| == 0 then -1
    else
      var k := Find(s[1..], p);
      if k == -1 then -1 else k + 1
  }

  /** `Find` gives the first occurrence, and -1 only when there is none. */
  lemma {:induction false} FindSpec(s: string, p: string)
    ensures var r := Find(s, p);
            && (r >= 0 ==> StartsWith(s[r..], p))
            && (r >= 0 ==> forall j :: 0 <= j < r ==> !StartsWith(s[j..], p))
            && (r == -1 ==> forall j :: 0 <= j <= |s| ==> !StartsWith(s[j..], p))
    decreases |s|
  {
    if !StartsWith(s, p) && |s| > 0 {
      FindSpec(s[1..], p);
      var k := Find(s[1..], p);
      if k >= 0 {
        assert s[k + 1..] == s[1..][k..];
        forall j | 0 <= j < k + 1
          ensures !StartsWith(s[j..], p)
        {
          if j > 0 {
            assert s[j..] == s[1..][j - 1..];
          }
        }
      } else {
        forall j | 0 <= j <= |s|
          ensures !StartsWith(s[j..], p)
        {
          if j > 0 {
            assert s[j..] == s[1..][j - 1..];
          }
        }
      }
    }
  }

  /** `p in s` for strings. */
  predicate Contains(s: string, p: string)
  {
    Find(s, p) >= 0
  }

  lemma ContainsAt(s: string, p: string, j: int)
    requires 0 <= j <= |s| && StartsWith(s[j..], p)
    ensures Contains(s, p)
  {
    FindSpec(s, p);
  }

  /** A slice of a string only contains what the string contains. */
  lemma SliceContains(s: string, p: string, a: int, b: int)
    requires 0 <= a <= b <= |s| && Contains(s[a..b], p)
    ensures Contains(s, p)
  {
    var j := Find(s[a..b], p);
    FindSpec(s[a..b], p);
    assert s[a..b][j..][..|p|] == s[a + j..][..|p|];
    ContainsAt(s, p, a + j);
  }

  /** So does a suffix. */
  lemma SuffixContains(s: string, t: string, p: string)
    requires |t| <= |s| && t == s[|s| - |t|..] && Contains(t, p)
    ensures Contains(s, p)
  {
    assert s[|s| - |t|..|s|] == t;
    SliceContains(s, p, |s| - |t|, |s|);
  }

  lemma TailContains(s: string, p: string)
    requires |s| > 0
    ensures Contains(s[1..], p) ==> Contains(s, p)
  {
    if Contains(s[1..], p) {
      assert s[1..|s|] == s[1..];
      SliceContains(s, p, 1, |s|);
    }
  }

  /** `s.split(p, 1)[0]`: everything before the first `p`. */
  function BeforeFirst(s: string, p: string): (r: string)
    ensures |r| <= |s| && r == s[..|r|]
    ensures Contains(s, p) ==> |r| == Find(s, p) && StartsWith(s[|r|..], p)
    ensures !Contains(s, p) ==> r == s
    ensures |p| > 0 ==> !Contains(r, p)
  {
    var k := Find(s, p);
    FindSpec(s, p);
    if k == -1 then s
    else
      FindPrefixFree(s, p);
      s[..k]
  }

  /** Nothing before the first occurrence of `p` contains `p`. */
  lemma FindPrefixFree(s: string, p: string)
    requires Contains(s, p)
    ensures |p| > 0 ==> !Contains(s[..Find(s, p)], p)
  {
    var k := Find(s, p);
    var r := s[..k];
    FindSpec(s, p);
    FindSpec(r, p);
    forall j | 0 <= j <= |r| && |p| > 0
      ensures !StartsWith(r[j..], p)
    {
      if j + |p| <= |r| {
        PrefixWindow(s, r, k, j, |p|);
      }
    }
  }

  /** A window inside a prefix is the same window of the whole text. */
  lemma PrefixWindow(s: string, r: string, k: nat, j: nat, n: nat)
    requires k <= |s| && r == s[..k] && j + n <= k
    ensures r[j..][..n] == s[j..][..n]
  {
    assert forall i :: 0 <= i < n ==> r[j..][..n][i] == s[j + i];
  }

  /** `s[Find(s, p) + len(p):]` for a `p` that occurs in `s`. */
  function AfterFirst(s: string, p: string): (r: string)
    requires Contains(s, p)
    ensures |r| <= |s| && r == s[|s| - |r|..]
    ensures |r| == |s| - Find(s, p) - |p| && StartsWith(s[Find(s, p)..], p)
  {
    FoundAt(s, p);
    s[Find(s, p) + |p|..]
  }

  /** Where `Find` reports an occurrence, there is one. */
  lemma FoundAt(s: string, p: string)
    requires Contains(s, p)
    ensures StartsWith(s[Find(s, p)..], p)
  {
    FindSpec(s, p);
  }

  /** `s.lstrip()` */
  function LStrip(s: string): (r: string)
    ensures |r| <= |s| && r == s[|s| - |r|..]
    ensures forall i :: 0 <= i < |s| - |r| ==> IsSpace(s[i])
    ensures r == [] || !IsSpace(r[0])
    decreases |s|
  {
    if |s| > 0 && IsSpace(s[0]) then LStrip(s[1..]) else s
  }

  /** `s.rstrip()` */
  function RStrip(s: string): (r: string)
    ensures |r| <= |s| && r == s[..|r|]
    ensures forall i :: |r| <= i < |s| ==> IsSpace(s[i])
    ensures r == [] || !IsSpace(r[|r| - 1])
    decreases |s|
  {
    if |s| > 0 && IsSpace(s[|s| - 1]) then RStrip(s[..|s| - 1]) else s
  }

  /** `rstrip()` takes off one trailing space from a text ending in a
      non-space. */
  lemma RStripSpace(s: string)
    requires |s| > 0 && !IsSpace(s[|s| - 1])
    ensures RStrip(s + " ") == s
  {
    assert (s + " ")[..|s|] == s;
  }

  /** `s.strip()` */
  function Strip(s: string): (r: string)
    ensures IsTrimmed(r)
    ensures |r| <= |s|
    ensures exists a :: StrippedAt(s, r, a)
  {
    StripSlice(s);
    RStrip(LStrip(s))
  }

  lemma StripSlice(s: string)
    ensures IsTrimmed(RStrip(LStrip(s))) && StrippedAt(s, RStrip(LStrip(s)), |s| - |LStrip(s)|)
  {
    StripParts(s, LStrip(s), RStrip(LStrip(s)));
  }

  lemma StripParts(s: string, l: string, r: string)
    requires |l| <= |s| && l == s[|s| - |l|..]
    requires forall i :: 0 <= i < |s| - |l| ==> IsSpace(s[i])
    requires l == [] || !IsSpace(l[0])
    requires |r| <= |l| && r == l[..|r|]
    requires forall i :: |r| <= i < |l| ==> IsSpace(l[i])
    requires r == [] || !IsSpace(r[|r| - 1])
    ensures IsTrimmed(r) && StrippedAt(s, r, |s| - |l|)
  {
    TrimmedPrefix(l, r);
    SuffixSlice(s, l, r, |s| - |l|);
  }

  /** A prefix of a text not starting with whitespace, itself not ending in
      whitespace, is trimmed. */
  lemma TrimmedPrefix(l: string, r: string)
    requires |r| <= |l| && r == l[..|r|]
    requires l == [] || !IsSpace(l[0])
    requires r == [] || !IsSpace(r[|r| - 1])
    ensures IsTrimmed(r)
  {
    if r != [] {
      assert r[0] == l[0];
    }
  }

  /** A prefix `r` of the suffix `l` of `s` starting at `a` is the slice of
      `s` at `a`; whitespace after `r` in `l` is whitespace after it in `s`. */
  lemma SuffixSlice(s: string, l: string, r: string, a: int)
    requires 0 <= a <= |s| && l == s[a..] && |r| <= |l| && r == l[..|r|]
    requires forall i :: 0 <= i < a ==> IsSpace(s[i])
    requires forall i :: |r| <= i < |l| ==> IsSpace(l[i])
    ensures StrippedAt(s, r, a)
  {
    assert s[a..a + |r|] == l[..|r|];
    forall i | a + |r| <= i < |s|
      ensures IsSpace(s[i])
    {
      assert s[i] == l[i - a];
    }
  }

  /** `r` is the slice of `s` starting at `a`, and everything of `s` outside
      that slice is whitespace. */
  predicate StrippedAt(s: string, r: string, a: int)
  {
    && 0 <= a && a + |r| <= |s| && r == s[a..a + |r|]
    && (forall i :: 0 <= i < a ==> IsSpace(s[i]))
    && (forall i :: a + |r| <= i < |s| ==> IsSpace(s[i]))
  }

  /** Stripping never adds text: what the stripped string contains, the
      original contains. */
  lemma StripContains(s: string, p: string)
    requires Contains(Strip(s), p)
    ensures Contains(s, p)
  {
    var l := LStrip(s);
    var r := RStrip(l);
    assert r == l[0..|r|];
    SliceContains(l, p, 0, |r|);
    assert l == s[|s| - |l|..|s|];
    SliceContains(s, p, |s| - |l|, |s|);
  }

  /** What the stripped text before a separator, or a stripped suffix,
      contains, the whole text contains. */
  lemma BeforeWithin(s: string, q: string, p: string)
    requires Contains(Strip(BeforeFirst(s, q)), p)
    ensures Contains(s, p)
  {
    var b := BeforeFirst(s, q);
    StripContains(b, p);
    SliceContains(s, p, 0, |b|);
  }

  lemma StripSuffixWithin(s: string, a: string, b: string, p: string)
    requires |a| <= |s| && a == s[|s| - |a|..] && b == Strip(a) && Contains(b, p)
    ensures Contains(s, p)
  {
    StripContains(a, p);
    SuffixContains(s, a, p);
  }

  /** A trimmed string is left alone by `strip()`; in particular `strip()`
      is idempotent. */
  lemma StripTrimmed(s: string)
    requires IsTrimmed(s)
    ensures Strip(s) == s
  {
  }

  /** The maximal whitespace-free prefix of `s`. */
  function TakeWord(s: string): (w: string)
    ensures |w| <= |s| && w == s[..|w|]
    ensures forall i :: 0 <= i < |w| ==> !IsSpace(w[i])
    ensures |w| == |s| || IsSpace(s[|w|])
    decreases |s|
  {
    if |s| == 0 || IsSpace(s[0]) then "" else [s[0]] + TakeWord(s[1..])
  }

  /** `s.split()`: the maximal whitespace-free runs of `s`, in order. */
  function SplitWhitespace(s: string): (r: seq<string>)
    ensures forall i :: 0 <= i < |r| ==> IsWord(r[i])
    ensures r == [] <==> forall i :: 0 <= i < |s| ==> IsSpace(s[i])
    ensures r != [] ==> r[0] == TakeWord(LStrip(s))
    ensures |s| > 0 && !IsSpace(s[0]) ==> |r| > 0 && r[0] == TakeWord(s)
    decreases |s|
  {
    var t := LStrip(s);
    if t == "" then []
    else
      assert !IsSpace(s[|s| - |t|]);
      var w := TakeWord(t);
      assert |w| > 0;
      assert |s| > 0 && !IsSpace(s[0]) ==> t == s;
      var rest := SplitWhitespace(t[|w|..]);
      WordsCons(w, rest);
      [w] + rest
  }

  lemma WordsCons(w: string, ws: seq<string>)
    requires IsWord(w) && forall i :: 0 <= i < |ws| ==> IsWord(ws[i])
    ensures forall i :: 0 <= i < |[w] + ws| ==> IsWord(([w] + ws)[i])
  {
    forall i | 0 <= i < |[w] + ws|
      ensures IsWord(([w] + ws)[i])
    {
      if i > 0 {
        assert ([w] + ws)[i] == ws[i - 1];
      }
    }
  }

  /** Leading whitespace does not change the split. */
  lemma SplitWhitespaceSpace(s: string)
    ensures SplitWhitespace(" " + s) == SplitWhitespace(s)
  {
    TailOfCons(' ', s);
    assert LStrip(" " + s) == LStrip(s);
  }

  lemma SplitWhitespaceCons(w: string, s: string)
    requires IsWord(w)
    ensures SplitWhitespace(w + " " + s) == [w] + SplitWhitespace(s)
  {
    var t := w + " " + s;
    assert LStrip(t) == t;
    TakeWordOfWord(w, " " + s);
    assert t == w + (" " + s);
    assert t[|w|..] == " " + s;
    SplitWhitespaceSpace(s);
  }

  lemma JoinCons(w: string, ws: seq<string>, split: seq<string>)
    requires IsWord(w) && |ws| > 0 && SplitWhitespace(JoinSpace(ws)) == split
    ensures SplitWhitespace(JoinSpace([w] + ws)) == [w] + split
  {
    assert ([w] + ws)[1..] == ws;
    SplitWhitespaceCons(w, JoinSpace(ws));
  }

  lemma SplitWhitespaceSingle(w: string)
    requires IsWord(w)
    ensures SplitWhitespace(w) == [w]
  {
    assert LStrip(w) == w;
    TakeWordOfWord(w, "");
    assert w + "" == w;
    assert w[|w|..] == "";
  }

  /** A non-empty sequence is its head followed by its tail. */
  lemma ConsTail<T>(s: seq<T>)
    requires |s| > 0
    ensures [s[0]] + s[1..] == s
  {
  }

  /** The head and the tail of a sequence built by prepending. */
  lemma TailOfCons<T>(x: T, s: seq<T>)
    ensures ([x] + s)[0] == x && ([x] + s)[1..] == s
  {
  }

  /** Concatenation is associative. */
  lemma ConcatAssoc<T>(a: seq<T>, b: seq<T>, c: seq<T>)
    ensures a + b + c == a + (b + c)
  {
  }

  /** `" ".join(ws)` */
  function JoinSpace(ws: seq<string>): string
  {
    if |ws| == 0 then "" else if |ws| == 1 then ws[0] else ws[0] + " " + JoinSpace(ws[1..])
  }

  lemma JoinSpaceHead(ws: seq<string>)
    requires |ws| > 0 && |ws[0]| > 0
    ensures |JoinSpace(ws)| > 0 && JoinSpace(ws)[0] == ws[0][0]
  {
  }

  lemma {:induction false} JoinSpaceLast(ws: seq<string>)
    requires |ws| > 0 && |ws[|ws| - 1]| > 0
    ensures |JoinSpace(ws)| > 0
    ensures JoinSpace(ws)[|JoinSpace(ws)| - 1] == ws[|ws| - 1][|ws[|ws| - 1]| - 1]
    decreases |ws|
  {
    if |ws| > 1 {
      JoinSpaceLast(ws[1..]);
    }
  }

  /** Words joined with spaces make a trimmed string. */
  lemma JoinSpaceTrimmed(ws: seq<string>)
    requires forall i :: 0 <= i < |ws| ==> IsWord(ws[i])
    ensures IsTrimmed(JoinSpace(ws))
  {
    if |ws| > 0 {
      JoinSpaceHead(ws);
      JoinSpaceLast(ws);
    }
  }

  lemma {:induction false} TakeWordOfWord(w: string, rest: string)
    requires IsWord(w) && (rest == [] || IsSpace(rest[0]))
    ensures TakeWord(w + rest) == w
    decreases |w|
  {
    assert (w + rest)[1..] == w[1..] + rest;
    if |w| > 1 {
      TakeWordOfWord(w[1..], rest);
    }
  }

  /** Words laid out between runs of whitespace: `gaps[0] + ws[0] + gaps[1]
      + ... + ws[n-1] + gaps[n]`. */
  function Layout(ws: seq<string>, gaps: seq<string>): string
    requires |gaps| == |ws| + 1
    decreases |ws|
  {
    if ws == [] then gaps[0] else gaps[0] + ws[0] + Layout(ws[1..], gaps[1..])
  }

  predicate AllSpace(g: string)
  {
    forall i :: 0 <= i < |g| ==> IsSpace(g[i])
  }

  /** Runs of whitespace that may separate words: any run before and after,
      a non-empty one between two words. */
  predicate Gaps(ws: seq<string>, gaps: seq<string>)
  {
    && |gaps| == |ws| + 1
    && (forall i :: 0 <= i < |gaps| ==> AllSpace(gaps[i]))
    && (forall i :: 0 < i < |ws| ==> gaps[i] != "")
  }

  /** Leading whitespace is dropped before the first word. */
  lemma {:induction false} LStripSpaces(g: string, s: string)
    requires AllSpace(g)
    ensures LStrip(g + s) == LStrip(s)
    decreases |g|
  {
    if g != [] {
      assert (g + s)[0] == g[0];
      assert (g + s)[1..] == g[1..] + s;
      LStripSpaces(g[1..], s);
    } else {
      assert g + s == s;
    }
  }

  /** One word after some whitespace, followed by text that does not continue
      the word, is split off first. */
  lemma SplitWhitespaceWord(g: string, w: string, rest: string)
    requires AllSpace(g) && IsWord(w) && (rest == [] || IsSpace(rest[0]))
    ensures SplitWhitespace(g + w + rest) == [w] + SplitWhitespace(rest)
  {
    var t := w + rest;
    ConcatAssoc(g, w, rest);
    LStripWord(g, w, rest);
    TakeWordOfWord(w, rest);
    assert t[|w|..] == rest;
    SplitWhitespaceUnfold(g + t);
  }

  lemma LStripWord(g: string, w: string, rest: string)
    requires AllSpace(g) && IsWord(w)
    ensures LStrip(g + (w + rest)) == w + rest
  {
    LStripSpaces(g, w + rest);
    assert (w + rest)[0] == w[0];
  }

  lemma SplitWhitespaceUnfold(s: string)
    requires LStrip(s) != ""
    ensures var t := LStrip(s);
            SplitWhitespace(s) == [TakeWord(t)] + SplitWhitespace(t[|TakeWord(t)|..])
  {
  }

  /** `split()` finds exactly the words, whatever whitespace surrounds and
      separates them. */
  lemma {:induction false} SplitWhitespaceLayout(ws: seq<string>, gaps: seq<string>)
    requires Gaps(ws, gaps)
    requires forall i :: 0 <= i < |ws| ==> IsWord(ws[i])
    ensures SplitWhitespace(Layout(ws, gaps)) == ws
    decreases |ws|
  {
    if ws == [] {
      assert AllSpace(gaps[0]);
    } else {
      var tw, tg := ws[1..], gaps[1..];
      assert Gaps(tw, tg) by {
        forall i | 0 <= i < |tg| ensures AllSpace(tg[i]) { assert tg[i] == gaps[i + 1]; }
        forall i | 0 < i < |tw| ensures tg[i] != "" { assert tg[i] == gaps[i + 1]; }
      }
      forall i | 0 <= i < |tw| ensures IsWord(tw[i]) { assert tw[i] == ws[i + 1]; }
      SplitWhitespaceLayout(tw, tg);
      var rest := Layout(tw, tg);
      assert rest == [] || IsSpace(rest[0]) by {
        if tw != [] {
          assert gaps[1] != "" && AllSpace(gaps[1]);
          assert rest[0] == gaps[1][0];
        } else {
          assert rest == gaps[1];
        }
      }
      SplitWhitespaceWord(gaps[0], ws[0], rest);
      ConsTail(ws);
    }
  }

  /** Splitting on whitespace undoes joining words with single spaces. */
  lemma {:induction false} SplitWhitespaceJoin(ws: seq<string>)
    requires forall i :: 0 <= i < |ws| ==> IsWord(ws[i])
    ensures SplitWhitespace(JoinSpace(ws)) == ws
    decreases |ws|
  {
    if |ws| == 1 {
      SplitWhitespaceSingle(ws[0]);
    } else if |ws| > 1 {
      var tail := ws[1..];
      forall i | 0 <= i < |tail|
        ensures IsWord(tail[i])
      {
        assert tail[i] == ws[i + 1];
      }
      SplitWhitespaceJoin(tail);
      assert JoinSpace(ws) == ws[0] + " " + JoinSpace(tail);
      SplitWhitespaceCons(ws[0], JoinSpace(tail));
      ConsTail(ws);
    }
  }

  /** `s.index(c)` when `c` occurs, and -1 otherwise. */
  function IndexOf(s: string, c: char): (k: int)
    ensures -1 <= k < |s|
    ensures k >= 0 ==> s[k] == c && c !in s[..k]
    ensures k == -1 <==> c !in s
    decreases |s|
  {
    if |s| == 0 then -1
    else if s[0] == c then 0
    else
      var k := IndexOf(s[1..], c);
      if k == -1 then -1 else assert s[..k + 1] == [s[0]] + s[1..][..k]; k + 1
  }

  /** `s.split(c)` for a one-character separator: the pieces between the
      occurrences of `c`, always at least one. */
  function SplitChar(s: string, c: char): (r: seq<string>)
    ensures |r| >= 1
    ensures |r[0]| <= |s| && r[0] == s[..|r[0]|]
    ensures |r| == 1 <==> c !in s
    ensures |r| > 1 ==> |r[0]| < |s| && s[|r[0]|] == c
    ensures forall i :: 0 <= i < |r| ==> c !in r[i]
    decreases |s|
  {
    var k := IndexOf(s, c);
    if k == -1 then [s]
    else
      var rest := SplitChar(s[k + 1..], c);
      var h := s[..k];
      var r := [h] + rest;
      SplitCharCons(s, c, k, h, rest, r);
      r
  }

  /** The pieces of `split(c)` past the first occurrence of `c`, behind the
      text before it, are again pieces free of `c`. */
  lemma SplitCharCons(s: string, c: char, k: int, h: string, rest: seq<string>, r: seq<string>)
    requires 0 <= k < |s| && s[k] == c && h == s[..k] && c !in h
    requires |rest| >= 1 && forall i :: 0 <= i < |rest| ==> c !in rest[i]
    requires r == [h] + rest
    ensures |r| > 1 && |r[0]| < |s| && r[0] == s[..|r[0]|] && s[|r[0]|] == c && c in s
    ensures forall i :: 0 <= i < |r| ==> c !in r[i]
  {
    assert forall i :: 1 <= i < |r| ==> r[i] == rest[i - 1];
  }

  /** `c.join(ws)` */
  function JoinOn(ws: seq<string>, c: char): string
  {
    if |ws| == 0 then "" else if |ws| == 1 then ws[0] else ws[0] + [c] + JoinOn(ws[1..], c)
  }

  /** Joining the pieces of `split(c)` with `c` gives back the text: no
      character is lost or added. */
  lemma {:induction false} SplitCharJoin(s: string, c: char)
    ensures JoinOn(SplitChar(s, c), c) == s
    decreases |s|
  {
    var k := IndexOf(s, c);
    if k != -1 {
      var h, tl := s[..k], s[k + 1..];
      var rest := SplitChar(tl, c);
      SplitCharJoin(tl, c);
      assert SplitChar(s, c) == [h] + rest;
      Around(s, k, h, tl);
      JoinOnCons(h, rest, c, tl, s);
    }
  }

  /** The text around an index, with the character at it between. */
  lemma Around(s: string, k: nat, h: string, tl: string)
    requires k < |s| && h == s[..k] && tl == s[k + 1..]
    ensures s == h + [s[k]] + tl
  {
  }

  /** Joining a piece in front of pieces that join to `tl`. */
  lemma JoinOnCons(h: string, rest: seq<string>, c: char, tl: string, s: string)
    requires |rest| >= 1 && JoinOn(rest, c) == tl && s == h + [c] + tl
    ensures JoinOn([h] + rest, c) == s
  {
    TailOfCons(h, rest);
  }

  /** `" ".join` is `c.join` for the space. */
  lemma {:induction false} JoinSpaceOn(ws: seq<string>)
    ensures JoinSpace(ws) == JoinOn(ws, ' ')
    decreases |ws|
  {
    if |ws| > 1 {
      JoinSpaceOn(ws[1..]);
    }
  }

  lemma IndexOfAfter(a: string, c: char, b: string)
    requires c !in a
    ensures IndexOf(a + [c] + b, c) == |a|
  {
    var s := a + [c] + b;
    assert s[|a|] == c;
    assert s[..|a|] == a;
  }

  /** Splitting on single spaces undoes joining space-free pieces with
      single spaces. */
  lemma {:induction false} SplitSpaceJoin(ts: seq<string>)
    requires |ts| >= 1
    requires forall i :: 0 <= i < |ts| ==> ' ' !in ts[i]
    ensures SplitChar(JoinSpace(ts), ' ') == ts
    decreases |ts|
  {
    if |ts| == 1 {
      assert JoinSpace(ts) == ts[0];
    } else {
      var tail := ts[1..];
      forall i | 0 <= i < |tail|
        ensures ' ' !in tail[i]
      {
        assert tail[i] == ts[i + 1];
      }
      SplitSpaceJoin(tail);
      SplitCharAt(ts[0], ' ', JoinSpace(tail));
      assert JoinSpace(ts) == ts[0] + [' '] + JoinSpace(tail);
      ConsTail(ts);
    }
  }

  /** The first separator ends the first piece. */
  lemma SplitCharAt(a: string, c: char, b: string)
    requires c !in a
    ensures SplitChar(a + [c] + b, c) == [a] + SplitChar(b, c)
  {
    var s := a + [c] + b;
    IndexOfAfter(a, c, b);
    assert s[..|a|] == a;
    assert s[|a| + 1..] == b;
  }

  /** `s.lstrip(c)` for one character `c`. */
  function LStripChar(s: string, c: char): (r: string)
    ensures r == [] || r[0] != c
    decreases |s|
  {
    if |s| > 0 && s[0] == c then LStripChar(s[1..], c) else s
  }

  /** What `s.lstrip(c)` leaves: a suffix of `s` not starting with `c`,
      everything before it being `c`. */
  lemma {:induction false} LStripCharSuffix(s: string, c: char)
    ensures var r := LStripChar(s, c);
      && |r| <= |s| && r == s[|s| - |r|..]
      && (forall i :: 0 <= i < |s| - |r| ==> s[i] == c)
      && (r == [] || r[0] != c)
    decreases |s|
  {
    if |s| > 0 && s[0] == c {
      LStripCharSuffix(s[1..], c);
      var r := LStripChar(s, c);
      assert r == LStripChar(s[1..], c);
      forall i | 0 <= i < |s| - |r| ensures s[i] == c {
        if i > 0 { assert s[i] == s[1..][i - 1]; }
      }
    }
  }

  /** Stripping a leading character stops inside `a` when `a` is not made of
      that character alone, so whatever follows `a` is kept verbatim. */
  lemma {:induction false} LStripCharAppend(a: string, b: string, c: char)
    requires LStripChar(a, c) != ""
    ensures LStripChar(a + b, c) == LStripChar(a, c) + b
    decreases |a|
  {
    assert |a| > 0;
    assert (a + b)[0] == a[0];
    if a[0] == c {
      assert (a + b)[1..] == a[1..] + b;
      LStripCharAppend(a[1..], b, c);
    }
  }

  /** A concatenation starts with its left part and ends with its right. */
  lemma Affixes(p: string, q: string)
    ensures StartsWith(p + q, p) && EndsWith(p + q, q)
  {
    assert (p + q)[..|p|] == p;
    assert (p + q)[|p + q| - |q|..] == q;
  }

  /** Appending keeps a prefix. */
  lemma StartsWithAppend(s: string, p: string, q: string)
    requires StartsWith(s, p)
    ensures StartsWith(s + q, p)
  {
    assert (s + q)[..|p|] == s[..|p|];
  }

  /** `s[1:]` */
  function DropFirst(s: string): (r: string)
    ensures |s| > 0 ==> [s[0]] + r == s
    ensures |s| == 0 ==> r == s
  {
    if |s| == 0 then s else s[1..]
  }

  /** `s.replace(key, with)`: every occurrence of `key`, scanning left to right
      without overlap, replaced by `with`. */
  function Replace(s: string, key: string, with: string): (r: string)
    requires |key| > 0
    ensures !Contains(s, key) ==> r == s
    decreases |s|
  {
    if |s| < |key| then s
    else if s[..|key|] == key then with + Replace(s[|key|..], key, with)
    else
      TailContains(s, key);
      [s[0]] + Replace(s[1..], key, with)
  }

  /** Replacing a key by a text at least as long never shortens the text. */
  lemma {:induction false} ReplaceLonger(s: string, key: string, with: string)
    requires |key| > 0 && |with| >= |key|
    ensures |Replace(s, key, with)| >= |s|
    decreases |s|
  {
    if |s| >= |key| {
      if s[..|key|] == key {
        ReplaceLonger(s[|key|..], key, with);
      } else {
        ReplaceLonger(s[1..], key, with);
      }
    }
  }

  /** `replace` copies the text up to the first occurrence `k` of the key,
      puts `with` in its place, and carries on after it. */
  lemma {:induction false} ReplaceFirst(s: string, key: string, with: string, k: nat)
    requires |key| > 0 && Find(s, key) == k
    ensures Replace(s, key, with) == s[..k] + with + Replace(s[k + |key|..], key, with)
    decreases |s|
  {
    if k == 0 {
      ReplaceAtStart(s, key, with);
    } else {
      FindTail(s, key);
      var t, k1 := s[1..], k - 1;
      ReplaceFirst(t, key, with, k1);
      ReplaceLater(s, t, k1, k, key, with);
    }
  }

  /** The step of `ReplaceFirst` where the key does not start the text. */
  lemma ReplaceLater(s: string, t: string, k1: nat, k: nat, key: string, with: string)
    requires |key| > 0 && 0 < |s| && !StartsWith(s, key) && t == s[1..]
    requires k == k1 + 1 && k + |key| <= |s|
    requires Replace(t, key, with) == t[..k1] + with + Replace(t[k1 + |key|..], key, with)
    ensures Replace(s, key, with) == s[..k] + with + Replace(s[k + |key|..], key, with)
  {
    ReplaceCopies(s, key, with);
    ReplaceShift(s, k1, k, key, with);
  }

  lemma ReplaceAtStart(s: string, key: string, with: string)
    requires |key| > 0 && StartsWith(s, key)
    ensures Find(s, key) == 0
    ensures Replace(s, key, with) == s[..0] + with + Replace(s[|key|..], key, with)
  {
    ReplaceHead(s, key, with);
    EmptyHead(s, with, Replace(s[|key|..], key, with));
  }

  lemma ReplaceHead(s: string, key: string, with: string)
    requires |key| > 0 && StartsWith(s, key)
    ensures Replace(s, key, with) == with + Replace(s[|key|..], key, with)
  {
  }

  lemma EmptyHead(s: string, w: string, y: string)
    ensures s[..0] + w + y == w + y
  {
    assert s[..0] == "";
  }

  /** Where the pattern does not start, it is found one place further on in
      the tail. */
  lemma FindTail(s: string, p: string)
    requires Contains(s, p) && !StartsWith(s, p)
    ensures |s| > 0 && Contains(s[1..], p) && Find(s, p) == Find(s[1..], p) + 1
  {
  }

  /** Where the key does not start, `replace` copies one character. */
  lemma ReplaceCopies(s: string, key: string, with: string)
    requires |key| > 0 && |key| <= |s| && !StartsWith(s, key)
    ensures Replace(s, key, with) == [s[0]] + Replace(s[1..], key, with)
  {
  }

  lemma ReplaceShift(s: string, k1: nat, k: nat, key: string, with: string)
    requires |key| > 0 && 0 < |s| && k == k1 + 1 && k + |key| <= |s|
    requires Replace(s[1..], key, with) == s[1..][..k1] + with + Replace(s[1..][k1 + |key|..], key, with)
    ensures [s[0]] + Replace(s[1..], key, with) == s[..k] + with + Replace(s[k + |key|..], key, with)
  {
    var y := Replace(s[k + |key|..], key, with);
    assert s[1..][k1 + |key|..] == s[k + |key|..];
    assert [s[0]] + s[1..][..k1] == s[..k];
    ConsShift(s[0], s[1..][..k1], with, y);
  }

  lemma ConsShift(c: char, a: string, w: string, y: string)
    ensures [c] + (a + w + y) == [c] + a + w + y
  {
  }
}
