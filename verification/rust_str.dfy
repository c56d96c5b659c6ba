/** The few pieces of Rust's `str` that the layout parser leans on:
    `char::is_whitespace`, `str::trim`, `str::lines` and `str::len`
    (which counts UTF-8 bytes, not characters). */
module RustStr {

  /** The Unicode White_Space property, which is what `char::is_whitespace` tests. */
  predicate IsWhitespace(c: char) {
    ('\U{9}' <= c <= '\U{D}') || c == ' ' || c == '\U{85}' || c == '\U{A0}'
    || c == '\U{1680}' || ('\U{2000}' <= c <= '\U{200A}') || c == '\U{2028}'
    || c == '\U{2029}' || c == '\U{202F}' || c == '\U{205F}' || c == '\U{3000}'
  }

  predicate AllWhitespace(s: string) {
    forall k :: 0 <= k < |s| ==> IsWhitespace(s[k])
  }

  /** `trim_start`: drops the leading whitespace, keeping a suffix of `s`. */
  function TrimStart(s: string): (r: string)
    ensures |r| <= |s| && r == s[|s| - |r|..]
    ensures AllWhitespace(s[..|s| - |r|])
    ensures r == [] || !IsWhitespace(r[0])
  {
    if s != [] && IsWhitespace(s[0]) then
      var p := s[1..];
      var r := TrimStart(p);
      assert s[|s| - |r|..] == p[|p| - |r|..];
      var front, pfront := s[..|s| - |r|], p[..|p| - |r|];
      assert AllWhitespace(front) by {
        forall k | 0 <= k < |front| ensures IsWhitespace(front[k]) {
          if k > 0 { assert front[k] == pfront[k - 1]; }
        }
      }
      r
    else s
  }

  /** `trim_end`: drops the trailing whitespace, keeping a prefix of `s`. */
  function TrimEnd(s: string): (r: string)
    ensures |r| <= |s| && r == s[..|r|]
    ensures AllWhitespace(s[|r|..])
    ensures r == [] || !IsWhitespace(r[|r| - 1])
  {
    if s != [] && IsWhitespace(s[|s| - 1]) then
      var p := s[..|s| - 1];
      var r := TrimEnd(p);
      assert s[..|r|] == p[..|r|];
      var back, pback := s[|r|..], p[|r|..];
      assert AllWhitespace(back) by {
        forall k | 0 <= k < |back| ensures IsWhitespace(back[k]) {
          if k < |pback| { assert back[k] == pback[k]; }
        }
      }
      r
    else s
  }

  /** `trim`: what is left once whitespace is removed at both ends. */
  function Trim(s: string): (r: string)
    ensures |r| <= |s|
    ensures r != [] ==> !IsWhitespace(r[0]) && !IsWhitespace(r[|r| - 1])
  {
    TrimEnd(TrimStart(s))
  }

  /** Trimming leaves nothing exactly when the text is all whitespace. */
  lemma TrimBlank(s: string)
    ensures Trim(s) == [] <==> AllWhitespace(s)
  {
    var t := TrimStart(s);
    if TrimEnd(t) == [] {
      assert t == [];
      assert s[..|s| - |t|] == s;
    }
  }

  /** The trimmed text is a slice of the original with only whitespace around it. */
  lemma TrimIsSlice(s: string) returns (a: nat)
    ensures a + |Trim(s)| <= |s| && Trim(s) == s[a..a + |Trim(s)|]
    ensures AllWhitespace(s[..a]) && AllWhitespace(s[a + |Trim(s)|..])
  {
    var t := TrimStart(s);
    var r := TrimEnd(t);
    assert Trim(s) == r;
    a := |s| - |t|;
    SliceOfSlice(s, t, r);
  }

  /** A prefix `r` of a suffix `t` of `s`, with whitespace around each, is a slice of `s`
      with whitespace around it. */
  lemma SliceOfSlice(s: string, t: string, r: string)
    requires |t| <= |s| && t == s[|s| - |t|..] && AllWhitespace(s[..|s| - |t|])
    requires |r| <= |t| && r == t[..|r|] && AllWhitespace(t[|r|..])
    ensures r == s[|s| - |t|..|s| - |t| + |r|]
    ensures AllWhitespace(s[|s| - |t| + |r|..])
  {
    assert s[|s| - |t| + |r|..] == t[|r|..];
  }

  /** Trimming is idempotent. */
  lemma TrimIdempotent(s: string)
    ensures Trim(Trim(s)) == Trim(s)
  {
    var t := Trim(s);
    if t == [] {
      assert TrimStart(t) == [] && TrimEnd([]) == [];
    } else {
      assert TrimStart(t) == t;
      assert TrimEnd(t) == t;
    }
  }

  /** Index of the first `'\n'` in `s`, or `|s|` if there is none. */
  function LineEnd(s: string): (k: nat)
    ensures k <= |s|
    ensures forall i :: 0 <= i < k ==> s[i] != '\n'
    ensures k < |s| ==> s[k] == '\n'
  {
    if s == [] || s[0] == '\n' then 0 else 1 + LineEnd(s[1..])
  }

  /** Drops one `'\r'` that stood just before a line feed. */
  function StripCr(l: string): string {
    if l != [] && l[|l| - 1] == '\r' then l[..|l| - 1] else l
  }

  /** `str::lines`: splits at `"\n"` or `"\r\n"`; the terminator of the last line
      is optional, so there is no empty line after a final line feed. */
  function Lines(s: string): (ls: seq<string>)
    ensures forall i :: 0 <= i < |ls| ==> '\n' !in ls[i]
    ensures s == [] <==> ls == []
    decreases |s|
  {
    if s == [] then []
    else
      var k := LineEnd(s);
      if k == |s| then [s]
      else
        var l := s[..k];
        assert '\n' !in StripCr(l) by {
          if l != [] && l[|l| - 1] == '\r' { assert l[..|l| - 1] == s[..k - 1]; }
        }
        [StripCr(l)] + Lines(s[k + 1..])
  }

  /** Text made only of whitespace splits into lines made only of whitespace. */
  lemma {:induction false} LinesOfWhitespace(s: string)
    requires AllWhitespace(s)
    ensures forall i :: 0 <= i < |Lines(s)| ==> AllWhitespace(Lines(s)[i])
    decreases |s|
  {
    var k := LineEnd(s);
    if s != [] && k < |s| {
      var first, tail := StripCr(s[..k]), s[k + 1..];
      LinesStep(s);
      WhitespaceSlice(s, k + 1, |s|);
      LinesOfWhitespace(tail);
      WhitespaceSlice(s, 0, k);
      StripCrWhitespace(s[..k]);
      WhitespaceCons(first, Lines(tail));
    }
  }

  /** Unfolds `Lines` once at a line feed. */
  lemma LinesStep(s: string)
    requires LineEnd(s) < |s|
    ensures Lines(s) == [StripCr(s[..LineEnd(s)])] + Lines(s[LineEnd(s) + 1..])
  {
  }

  lemma StripCrWhitespace(l: string)
    requires AllWhitespace(l)
    ensures AllWhitespace(StripCr(l))
  {
    if l != [] && l[|l| - 1] == '\r' { WhitespaceSlice(l, 0, |l| - 1); assert l[..|l| - 1] == l[0..|l| - 1]; }
  }

  lemma WhitespaceCons(first: string, ls: seq<string>)
    requires AllWhitespace(first)
    requires forall i :: 0 <= i < |ls| ==> AllWhitespace(ls[i])
    ensures forall i :: 0 <= i < |[first] + ls| ==> AllWhitespace(([first] + ls)[i])
  {
    forall i | 0 <= i < |[first] + ls| ensures AllWhitespace(([first] + ls)[i]) {
      if i > 0 { assert ([first] + ls)[i] == ls[i - 1]; }
    }
  }

  lemma WhitespaceSlice(s: string, i: nat, j: nat)
    requires AllWhitespace(s) && i <= j <= |s|
    ensures AllWhitespace(s[i..j])
  {
    forall m | 0 <= m < j - i ensures IsWhitespace(s[i..j][m]) { assert s[i..j][m] == s[i + m]; }
  }

  /** The inverse direction: every line followed by one line feed. */
  function Unlines(ls: seq<string>): string {
    if ls == [] then [] else ls[0] + "\n" + Unlines(ls[1..])
  }

  /** On text without carriage returns, `Lines` loses only a missing final line feed. */
  lemma {:induction false} LinesRoundTrip(s: string)
    requires '\r' !in s
    ensures Unlines(Lines(s)) == if s == [] || s[|s| - 1] == '\n' then s else s + "\n"
    decreases |s|
  {
    if s != [] {
      var k := LineEnd(s);
      if k == |s| {
        assert Lines(s) == [s];
        assert Unlines([s]) == s + "\n" + Unlines([]);
      } else {
        var line, tail := s[..k], s[k + 1..];
        assert s == line + "\n" + tail;
        assert '\r' !in tail && '\r' !in line;
        assert StripCr(line) == line;
        LinesCons(line, tail);
        UnlinesCons(line, Lines(tail));
        LinesRoundTrip(tail);
        if tail != [] { assert tail[|tail| - 1] == s[|s| - 1]; }
      }
    }
  }

  lemma UnlinesCons(l: string, ls: seq<string>)
    ensures Unlines([l] + ls) == l + "\n" + Unlines(ls)
  {
    assert ([l] + ls)[1..] == ls;
  }

  /** A line as `Lines` produces it when a line feed follows: no line feed inside and
      no carriage return at its end. */
  predicate PlainLine(l: string) {
    '\n' !in l && StripCr(l) == l
  }

  /** Lines that hold no line feed and do not end in a carriage return come back
      unchanged, whatever text follows them. */
  lemma {:induction false} UnlinesRoundTrip(ls: seq<string>, t: string)
    requires forall i :: 0 <= i < |ls| ==> PlainLine(ls[i])
    ensures Lines(Unlines(ls) + t) == ls + Lines(t)
  {
    if ls == [] {
      assert Unlines(ls) + t == t;
    } else {
      var tail := ls[1..];
      PlainTail(ls);
      UnlinesRoundTrip(tail, t);
      UnlinesStep(ls, t);
      SeqStep(ls, Lines(t));
    }
  }

  lemma PlainTail(ls: seq<string>)
    requires ls != [] && forall i :: 0 <= i < |ls| ==> PlainLine(ls[i])
    ensures forall i :: 0 <= i < |ls[1..]| ==> PlainLine(ls[1..][i])
  {
    forall i | 0 <= i < |ls[1..]| ensures PlainLine(ls[1..][i]) { assert ls[1..][i] == ls[i + 1]; }
  }

  lemma SeqStep<T>(ls: seq<T>, u: seq<T>)
    requires ls != []
    ensures [ls[0]] + (ls[1..] + u) == ls + u
  {
    assert ls == [ls[0]] + ls[1..];
  }

  /** One line of `UnlinesRoundTrip`. */
  lemma UnlinesStep(ls: seq<string>, t: string)
    requires ls != [] && PlainLine(ls[0])
    ensures Lines(Unlines(ls) + t) == [ls[0]] + Lines(Unlines(ls[1..]) + t)
  {
    var l, rest := ls[0], Unlines(ls[1..]) + t;
    assert Unlines(ls) + t == l + "\n" + rest;
    LinesCons(l, rest);
  }

  /** A line feed ends the first line. */
  lemma LinesCons(l: string, rest: string)
    requires '\n' !in l
    ensures Lines(l + "\n" + rest) == [StripCr(l)] + Lines(rest)
  {
    var s := l + "\n" + rest;
    assert s == l + ("\n" + rest);
    LineEndAt(l, "\n" + rest);
    assert s[|l| + 1..] == rest;
    assert s[..|l|] == l;
  }

  lemma {:induction false} TrimStartPadded(pre: string, s: string)
    requires AllWhitespace(pre)
    requires s == [] || !IsWhitespace(s[0])
    ensures TrimStart(pre + s) == s
  {
    if pre != [] {
      assert (pre + s)[1..] == pre[1..] + s;
      TrimStartPadded(pre[1..], s);
    }
  }

  lemma {:induction false} TrimEndPadded(s: string, post: string)
    requires AllWhitespace(post)
    requires s == [] || !IsWhitespace(s[|s| - 1])
    ensures TrimEnd(s + post) == s
  {
    if post != [] {
      var p := post[..|post| - 1];
      assert (s + post)[..|s + post| - 1] == s + p;
      TrimEndPadded(s, p);
    }
  }

  /** Whitespace around a word that starts and ends with a non-space is what `trim` removes. */
  lemma TrimPadded(pre: string, s: string, post: string)
    requires AllWhitespace(pre) && AllWhitespace(post)
    requires s != [] && !IsWhitespace(s[0]) && !IsWhitespace(s[|s| - 1])
    ensures Trim(pre + s + post) == s
  {
    assert pre + s + post == pre + (s + post);
    TrimStartPadded(pre, s + post);
    TrimEndPadded(s, post);
  }

  lemma {:induction false} LineEndAt(l: string, rest: string)
    requires '\n' !in l
    requires rest != [] && rest[0] == '\n'
    ensures LineEnd(l + rest) == |l|
    decreases |l|
  {
    if l != [] {
      assert (l + rest)[1..] == l[1..] + rest;
      LineEndAt(l[1..], rest);
    }
  }

  /** Number of bytes the UTF-8 encoding of `c` occupies. */
  function Utf8Width(c: char): (n: nat)
    ensures 1 <= n <= 4
    ensures n == 1 <==> c as int < 0x80
  {
    if c as int < 0x80 then 1
    else if c as int < 0x800 then 2
    else if c as int < 0x10000 then 3
    else 4
  }

  /** `str::len`: the length of `s` in UTF-8 bytes. */
  function ByteLen(s: string): (n: nat)
    ensures |s| <= n <= 4 * |s|
    ensures n == |s| <==> forall k :: 0 <= k < |s| ==> s[k] as int < 0x80
  {
    if s == [] then 0
    else
      var n := Utf8Width(s[0]) + ByteLen(s[1..]);
      assert (forall k :: 0 <= k < |s| ==> s[k] as int < 0x80)
         <==> s[0] as int < 0x80 && forall k :: 0 <= k < |s[1..]| ==> s[1..][k] as int < 0x80 by {
        if forall k :: 0 <= k < |s[1..]| ==> s[1..][k] as int < 0x80 {
          forall k | 1 <= k < |s| ensures s[k] as int < 0x80 { assert s[k] == s[1..][k - 1]; }
        }
      }
      n
  }
}
