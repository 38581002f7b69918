/**
 * The Python string primitives the bot relies on (`str.strip`, `str.lower`,
 * `in`, `str.find`, `str.split`, `str.join`, `str.replace`), written out over
 * `seq<char>` so that the rest of the model can state what its string
 * processing does.
 */
module Text {
  /** Joining sequences is associative; stated once so that proofs need not rediscover it. */
  lemma JoinAssoc<T>(x: seq<T>, y: seq<T>, z: seq<T>)
    ensures (x + y) + z == x + (y + z)
  {
  }


  /** The characters Python's `str.isspace()` accepts. */
  predicate IsSpace(c: char) {
    || ('\U{9}' <= c <= '\U{D}')
    || ('\U{1C}' <= c <= '\U{20}')
    || c == '\U{85}' || c == '\U{A0}' || c == '\U{1680}'
    || ('\U{2000}' <= c <= '\U{200A}')
    || c == '\U{2028}' || c == '\U{2029}' || c == '\U{202F}' || c == '\U{205F}' || c == '\U{3000}'
  }

  /** A string with no whitespace character at all. */
  predicate NoSpace(w: string) {
    forall j :: 0 <= j < |w| ==> !IsSpace(w[j])
  }

  /** Neither end of `s` is whitespace (what `strip` leaves behind). */
  predicate Trimmed(s: string) {
    s == [] || (!IsSpace(s[0]) && !IsSpace(s[|s| - 1]))
  }

  /** Python's `str.lstrip()`: drop leading whitespace. */
  function TrimStart(s: string): (r: string)
    ensures |r| <= |s|
    ensures r == [] || !IsSpace(r[0])
  {
    if s != [] && IsSpace(s[0]) then TrimStart(s[1..]) else s
  }

  /** `lstrip` keeps a suffix, drops only whitespace, and leaves no whitespace in front. */
  lemma {:induction false} TrimStartMeans(s: string)
    ensures var r := TrimStart(s);
            && r == s[|s| - |r|..]
            && (forall i :: 0 <= i < |s| - |r| ==> IsSpace(s[i]))
            && (r == [] || !IsSpace(r[0]))
  {
    if s != [] && IsSpace(s[0]) {
      TrimStartMeans(s[1..]);
    }
  }

  /** Text that opens with a non-space character shields everything after it from `lstrip`. */
  lemma {:induction false} TrimStartAppend(x: string, y: string)
    requires y != [] && !IsSpace(y[0])
    ensures TrimStart(x + y) == TrimStart(x) + y
  {
    if x == [] {
      assert x + y == y;
    } else {
      assert (x + y)[0] == x[0] && (x + y)[1..] == x[1..] + y;
      if IsSpace(x[0]) {
        TrimStartAppend(x[1..], y);
      }
    }
  }

  /** Python's `str.rstrip()`: drop trailing whitespace. */
  function TrimEnd(s: string): (r: string)
    ensures |r| <= |s|
  {
    if s != [] && IsSpace(s[|s| - 1]) then TrimEnd(s[..|s| - 1]) else s
  }

  /** `rstrip` keeps a prefix, drops only whitespace, and leaves no whitespace at the end. */
  lemma {:induction false} TrimEndMeans(s: string)
    ensures var r := TrimEnd(s);
            && r == s[..|r|]
            && (forall i :: |r| <= i < |s| ==> IsSpace(s[i]))
            && (r == [] || !IsSpace(r[|r| - 1]))
  {
    if s != [] && IsSpace(s[|s| - 1]) {
      TrimEndMeans(s[..|s| - 1]);
    }
  }

  /** Python's `str.strip()`. */
  function Strip(s: string): (r: string)
    ensures |r| <= |s|
  {
    TrimEnd(TrimStart(s))
  }

  /** Text with no whitespace at either end is its own `strip`. */
  lemma StripTrimmedText(s: string)
    requires Trimmed(s)
    ensures Strip(s) == s
  {
  }

  /** Where the piece `strip` keeps begins in its input. */
  function StripStart(s: string): (a: nat)
    ensures a + |Strip(s)| <= |s|
  {
    TrimStartMeans(s);
    |s| - |TrimStart(s)|
  }

  /**
   * `strip` keeps a contiguous piece of its input with whitespace at
   * neither end, and everything it drops is whitespace.
   */
  lemma StripMeans(s: string)
    ensures Trimmed(Strip(s))
    ensures var a := StripStart(s);
            && s[a..a + |Strip(s)|] == Strip(s)
            && (forall i :: 0 <= i < a ==> IsSpace(s[i]))
            && (forall i :: a + |Strip(s)| <= i < |s| ==> IsSpace(s[i]))
  {
    StripTrimmed(s);
    StripPiece(s);
  }

  /** Neither end of what `strip` keeps is whitespace. */
  lemma StripTrimmed(s: string)
    ensures Trimmed(Strip(s))
  {
    var t := TrimStart(s);
    var r := TrimEnd(t);
    TrimStartMeans(s);
    TrimEndMeans(t);
    if r != [] {
      assert r[0] == t[0];
    }
  }

  /** `strip` keeps the piece starting at `StripStart` and drops only whitespace around it. */
  lemma StripPiece(s: string)
    ensures var a := StripStart(s);
            && s[a..a + |Strip(s)|] == Strip(s)
            && (forall i :: 0 <= i < a ==> IsSpace(s[i]))
            && (forall i :: a + |Strip(s)| <= i < |s| ==> IsSpace(s[i]))
  {
    var t := TrimStart(s);
    var r := TrimEnd(t);
    var a := |s| - |t|;
    assert t == s[a..] && forall i :: 0 <= i < a ==> IsSpace(s[i]) by {
      TrimStartMeans(s);
    }
    assert r == t[..|r|] && forall i :: |r| <= i < |t| ==> IsSpace(t[i]) by {
      TrimEndMeans(t);
    }
    assert s[a..a + |r|] == s[a..][..|r|];
    forall i | a + |r| <= i < |s|
      ensures IsSpace(s[i])
    {
      assert s[i] == t[i - a];
    }
  }

  /** `strip` adds no character. */
  lemma StripKeepsChars(s: string)
    ensures forall k :: 0 <= k < |Strip(s)| ==> Strip(s)[k] in s
  {
    StripMeans(s);
    var a := StripStart(s);
    assert forall k :: 0 <= k < |Strip(s)| ==> Strip(s)[k] == s[a + k];
  }

  /** Python's `str.lower()` restricted to the ASCII letters. */
  function LowerChar(c: char): (d: char)
    ensures 'A' <= c <= 'Z' ==> 'a' <= d <= 'z' && d as int == c as int + 32
    ensures !('A' <= c <= 'Z') ==> d == c
  {
    if 'A' <= c <= 'Z' then (c as int + 32) as char else c
  }

  function Lower(s: string): (r: string)
    ensures |r| == |s|
  {
    seq(|s|, i requires 0 <= i < |s| => LowerChar(s[i]))
  }

  predicate StartsWith(s: string, p: string) {
    |p| <= |s| && s[..|p|] == p
  }

  predicate EndsWith(s: string, p: string) {
    |p| <= |s| && s[|s| - |p|..] == p
  }

  /** `sub` occurs in `s` starting at index `i`. */
  predicate OccursAt(s: string, sub: string, i: int) {
    0 <= i && i + |sub| <= |s| && s[i..i + |sub|] == sub
  }

  /** Python's `sub in s` for strings, scanning start positions left to right. */
  predicate Contains(s: string, sub: string)
    decreases |s|
  {
    StartsWith(s, sub) || (s != [] && Contains(s[1..], sub))
  }

  /** `sub in s` holds exactly when `sub` occurs at some position of `s`. */
  lemma {:induction false} ContainsOccurs(s: string, sub: string)
    ensures Contains(s, sub) <==> exists i :: 0 <= i <= |s| && OccursAt(s, sub, i)
    decreases |s|
  {
    if StartsWith(s, sub) {
      assert OccursAt(s, sub, 0);
    }
    if s != [] {
      ContainsOccurs(s[1..], sub);
      if exists i :: 0 <= i <= |s[1..]| && OccursAt(s[1..], sub, i) {
        var i :| 0 <= i <= |s[1..]| && OccursAt(s[1..], sub, i);
        assert s[i + 1..i + 1 + |sub|] == s[1..][i..i + |sub|];
        assert OccursAt(s, sub, i + 1);
      }
      if exists i :: 0 <= i <= |s| && OccursAt(s, sub, i) {
        var i :| 0 <= i <= |s| && OccursAt(s, sub, i);
        if i > 0 {
          assert s[1..][i - 1..i - 1 + |sub|] == s[i..i + |sub|];
          assert OccursAt(s[1..], sub, i - 1);
        } else {
          assert StartsWith(s, sub);
        }
      }
    } else {
      if exists i :: 0 <= i <= |s| && OccursAt(s, sub, i) {
        var i :| 0 <= i <= |s| && OccursAt(s, sub, i);
        assert StartsWith(s, sub);
      }
    }
  }

  /** Python's `any(k in s for k in keys)`. */
  predicate ContainsAny(s: string, keys: seq<string>) {
    keys != [] && (Contains(s, keys[0]) || ContainsAny(s, keys[1..]))
  }

  /** `any(...)` holds exactly when one of the keys occurs in `s`. */
  lemma {:induction false} ContainsAnyMeans(s: string, keys: seq<string>)
    ensures ContainsAny(s, keys) <==> exists k :: 0 <= k < |keys| && Contains(s, keys[k])
  {
    if keys != [] {
      ContainsAnyMeans(s, keys[1..]);
      if exists k :: 0 <= k < |keys| && Contains(s, keys[k]) {
        var k :| 0 <= k < |keys| && Contains(s, keys[k]);
        if k > 0 { assert keys[1..][k - 1] == keys[k]; }
      }
      if ContainsAny(s, keys[1..]) {
        var k :| 0 <= k < |keys[1..]| && Contains(s, keys[1..][k]);
        assert keys[k + 1] == keys[1..][k];
      }
    }
  }

  /** Python's `s.find(c)`: the first index of `c`, or -1. */
  function Find(s: string, c: char): (r: int)
    ensures r == -1 <==> c !in s
    ensures r != -1 ==> 0 <= r < |s| && s[r] == c && c !in s[..r]
  {
    if s == [] then -1
    else if s[0] == c then 0
    else
      var k := Find(s[1..], c);
      assert s[1..][..if k < 0 then 0 else k] == s[1..if k < 0 then 1 else k + 1];
      if k < 0 then -1 else k + 1
  }

  /** Python's `s.rfind(c)`: the last index of `c`, or -1. */
  function RFind(s: string, c: char): (r: int)
    ensures r == -1 <==> c !in s
    ensures r != -1 ==> 0 <= r < |s| && s[r] == c && c !in s[r + 1..]
  {
    if s == [] then -1
    else if s[|s| - 1] == c then |s| - 1
    else
      assert s == s[..|s| - 1] + [s[|s| - 1]];
      RFind(s[..|s| - 1], c)
  }

  /** Python's `sep.join(xs)`. */
  function Join(sep: string, xs: seq<string>): string {
    if xs == [] then ""
    else if |xs| == 1 then xs[0]
    else xs[0] + sep + Join(sep, xs[1..])
  }

  /** Python's `s.split(sep)` for a one-character separator: never empty, no piece holds `sep`. */
  function Split(s: string, sep: char): (r: seq<string>)
    ensures |r| >= 1
    ensures forall i :: 0 <= i < |r| ==> sep !in r[i]
    decreases |s|
  {
    var k := Find(s, sep);
    if k < 0 then [s] else [s[..k]] + Split(s[k + 1..], sep)
  }

  /** Joining the pieces of a split with the separator gives the string back. */
  lemma {:induction false} JoinSplit(s: string, sep: char)
    ensures Join([sep], Split(s, sep)) == s
    decreases |s|
  {
    var k := Find(s, sep);
    if k >= 0 {
      var rest := Split(s[k + 1..], sep);
      JoinCons([sep], s[..k], rest);
      JoinSplit(s[k + 1..], sep);
      assert Split(s, sep) == [s[..k]] + rest;
      CutAt(s, k);
    }
  }

  /** A string is the part before an index, the character there, and the part after. */
  lemma CutAt(s: string, k: nat)
    requires k < |s|
    ensures s[..k] + [s[k]] + s[k + 1..] == s
  {
  }

  /** Joining a list with at least two items: the first item, the separator, then the rest joined. */
  lemma JoinCons(sep: string, x: string, xs: seq<string>)
    requires xs != []
    ensures Join(sep, [x] + xs) == x + sep + Join(sep, xs)
  {
    assert ([x] + xs)[1..] == xs;
  }

  /** The leading run of non-whitespace characters of `t`. */
  function LeadingWord(t: string): (w: string)
    ensures |w| <= |t| && w == t[..|w|] && NoSpace(w)
    ensures |w| < |t| ==> IsSpace(t[|w|])
    ensures t != [] && !IsSpace(t[0]) ==> w != []
  {
    if t == [] || IsSpace(t[0]) then [] else [t[0]] + LeadingWord(t[1..])
  }

  /** Python's `s.split()` with no argument: the maximal whitespace-free runs, none empty. */
  function SplitWhitespace(s: string): (r: seq<string>)
    ensures forall i :: 0 <= i < |r| ==> r[i] != [] && NoSpace(r[i])
    decreases |s|
  {
    var t := TrimStart(s);
    if t == [] then []
    else
      var w := LeadingWord(t);
      [w] + SplitWhitespace(t[|w|..])
  }

  /** Python's `' '.join(s.split())`: runs of whitespace become one space, none at the ends. */
  function CollapseWhitespace(s: string): (r: string)
    ensures Trimmed(r)
    ensures forall j :: 0 <= j < |r| && IsSpace(r[j]) ==> r[j] == ' '
  {
    var words := SplitWhitespace(s);
    JoinWords(words);
    Join(" ", words)
  }

  lemma {:induction false} JoinWords(words: seq<string>)
    requires forall i :: 0 <= i < |words| ==> words[i] != [] && NoSpace(words[i])
    ensures Trimmed(Join(" ", words))
    ensures forall j :: 0 <= j < |Join(" ", words)| && IsSpace(Join(" ", words)[j]) ==> Join(" ", words)[j] == ' '
  {
    if |words| > 1 {
      JoinWords(words[1..]);
      var rest := Join(" ", words[1..]);
      var r := words[0] + " " + rest;
      assert Join(" ", words) == r;
      forall j | 0 <= j < |r| ensures IsSpace(r[j]) ==> r[j] == ' ' {
        if j < |words[0]| {
          assert r[j] == words[0][j];
        } else if j > |words[0]| {
          assert r[j] == rest[j - |words[0]| - 1];
        }
      }
      assert r[|r| - 1] == rest[|rest| - 1];
    }
  }

  /** Nothing but whitespace (possibly nothing at all). */
  predicate Blank(g: string) {
    forall j :: 0 <= j < |g| ==> IsSpace(g[j])
  }

  /** `s` with every whitespace character removed. */
  function NonSpace(s: string): (r: string)
    ensures |r| <= |s|
  {
    if s == [] then [] else (if IsSpace(s[0]) then [] else [s[0]]) + NonSpace(s[1..])
  }

  /** `''.join(words)`. */
  function Concat(words: seq<string>): string {
    if words == [] then [] else words[0] + Concat(words[1..])
  }

  lemma {:induction false} NonSpaceAppend(a: string, b: string)
    ensures NonSpace(a + b) == NonSpace(a) + NonSpace(b)
  {
    if a == [] {
      assert a + b == b;
    } else {
      assert (a + b)[0] == a[0] && (a + b)[1..] == a[1..] + b;
      NonSpaceAppend(a[1..], b);
    }
  }

  lemma {:induction false} NonSpaceOfBlank(g: string)
    requires Blank(g)
    ensures NonSpace(g) == []
  {
    if g != [] {
      assert Blank(g[1..]) by {
        assert forall j :: 0 <= j < |g[1..]| ==> g[1..][j] == g[j + 1];
      }
      NonSpaceOfBlank(g[1..]);
    }
  }

  lemma {:induction false} NonSpaceOfWord(w: string)
    requires NoSpace(w)
    ensures NonSpace(w) == w
  {
    if w != [] {
      assert NoSpace(w[1..]) by {
        assert forall j :: 0 <= j < |w[1..]| ==> w[1..][j] == w[j + 1];
      }
      NonSpaceOfWord(w[1..]);
    }
  }

  /** The whitespace in front of the first word of `s`. */
  function LeadGap(s: string): string {
    s[..|s| - |TrimStart(s)|]
  }

  /** What follows the first word of `s`. */
  function AfterFirstWord(s: string): string {
    TrimStart(s)[|LeadingWord(TrimStart(s))|..]
  }

  /** The whitespace runs of `s` around the words of `s.split()`: before the first, between each two, after the last. */
  function Gaps(s: string): seq<string>
    decreases |s|
  {
    var t := TrimStart(s);
    if t == [] then [LeadGap(s)] else [LeadGap(s)] + Gaps(AfterFirstWord(s))
  }

  /** `lstrip` splits `s` into its leading whitespace and the rest. */
  lemma LeadGapSplit(s: string)
    ensures Blank(LeadGap(s)) && s == LeadGap(s) + TrimStart(s)
  {
    TrimStartMeans(s);
  }

  /** Text left after `lstrip` opens with a word followed by whitespace or by nothing. */
  lemma FirstWordSplit(s: string)
    requires TrimStart(s) != []
    ensures var w := LeadingWord(TrimStart(s));
            var rest := AfterFirstWord(s);
            && w != [] && NoSpace(w) && (rest == [] || IsSpace(rest[0])) && |rest| < |s|
            && TrimStart(s) == w + rest
  {
    var t := TrimStart(s);
    var w := LeadingWord(t);
    assert t == w + t[|w|..];
  }

  /** One step of `s.split()` and of its gaps: the first word, then the split of the rest. */
  lemma SplitWhitespaceStep(s: string)
    requires TrimStart(s) != []
    ensures SplitWhitespace(s) == [LeadingWord(TrimStart(s))] + SplitWhitespace(AfterFirstWord(s))
    ensures Gaps(s) == [LeadGap(s)] + Gaps(AfterFirstWord(s))
  {
  }

  /** `s.split()` drops only whitespace: its words run together are `s` without its whitespace. */
  lemma {:induction false} SplitWhitespaceKeepsContent(s: string)
    ensures Concat(SplitWhitespace(s)) == NonSpace(s)
    decreases |s|
  {
    var t := TrimStart(s);
    assert NonSpace(s) == NonSpace(t) by {
      LeadGapSplit(s);
      NonSpaceAppend(LeadGap(s), t);
      NonSpaceOfBlank(LeadGap(s));
    }
    if t != [] {
      var w := LeadingWord(t);
      var rest := AfterFirstWord(s);
      FirstWordSplit(s);
      assert NonSpace(t) == w + NonSpace(rest) by {
        NonSpaceAppend(w, rest);
        NonSpaceOfWord(w);
      }
      SplitWhitespaceKeepsContent(rest);
      SplitWhitespaceStep(s);
      assert Concat([w] + SplitWhitespace(rest)) == w + Concat(SplitWhitespace(rest));
    }
  }

  /** `gaps[0] + words[0] + gaps[1] + ... + words[n - 1] + gaps[n]`. */
  function Interleave(gaps: seq<string>, words: seq<string>): string
    requires |gaps| == |words| + 1
  {
    if words == [] then gaps[0] else gaps[0] + words[0] + Interleave(gaps[1..], words[1..])
  }

  /** Text that opens with whitespace has a non-empty leading gap. */
  lemma LeadGapOfSpace(s: string)
    requires s != [] && IsSpace(s[0])
    ensures LeadGap(s) != []
  {
    assert TrimStart(s) == TrimStart(s[1..]);
  }

  /**
   * Where `s.split()` cuts: `s` is its words with whitespace runs between
   * them, each run between two words non-empty. Since the words hold no
   * whitespace and are not empty, they are the maximal runs of `s` without it.
   */
  lemma SplitWhitespaceCuts(s: string)
    ensures var g := Gaps(s);
            var ws := SplitWhitespace(s);
            && |g| == |ws| + 1
            && (forall i :: 0 <= i < |g| ==> Blank(g[i]))
            && (forall i :: 0 < i < |ws| ==> g[i] != [])
            && Interleave(g, ws) == s
  {
    GapsCount(s);
    GapsBlank(s);
    InnerGapsNonEmpty(s);
    InterleaveGaps(s);
  }

  /** There is one more gap than there are words. */
  lemma {:induction false} GapsCount(s: string)
    ensures |Gaps(s)| == |SplitWhitespace(s)| + 1
    decreases |s|
  {
    if TrimStart(s) != [] {
      FirstWordSplit(s);
      SplitWhitespaceStep(s);
      GapsCount(AfterFirstWord(s));
    }
  }

  /** Every gap is whitespace only. */
  lemma {:induction false} GapsBlank(s: string)
    ensures forall i :: 0 <= i < |Gaps(s)| ==> Blank(Gaps(s)[i])
    decreases |s|
  {
    LeadGapSplit(s);
    if TrimStart(s) != [] {
      var rest := AfterFirstWord(s);
      FirstWordSplit(s);
      SplitWhitespaceStep(s);
      GapsBlank(rest);
      ConsBlank(LeadGap(s), Gaps(rest));
    }
  }

  lemma ConsBlank(g: string, gaps: seq<string>)
    requires Blank(g) && forall i :: 0 <= i < |gaps| ==> Blank(gaps[i])
    ensures forall i :: 0 <= i < |[g] + gaps| ==> Blank(([g] + gaps)[i])
  {
    forall i | 0 <= i < |[g] + gaps|
      ensures Blank(([g] + gaps)[i])
    {
      if i > 0 {
        assert ([g] + gaps)[i] == gaps[i - 1];
      }
    }
  }

  /** Two neighbouring words are separated by at least one whitespace character. */
  lemma {:induction false} InnerGapsNonEmpty(s: string)
    ensures forall i :: 0 < i < |SplitWhitespace(s)| ==> i < |Gaps(s)| && Gaps(s)[i] != []
    decreases |s|
  {
    GapsCount(s);
    if TrimStart(s) != [] {
      var rest := AfterFirstWord(s);
      FirstWordSplit(s);
      SplitWhitespaceStep(s);
      GapsCount(rest);
      InnerGapsNonEmpty(rest);
      if SplitWhitespace(rest) != [] {
        LeadGapOfSpace(rest);
      }
      ConsInnerNonEmpty(LeadGap(s), LeadingWord(TrimStart(s)), Gaps(rest), SplitWhitespace(rest));
    }
  }

  lemma ConsInnerNonEmpty(g: string, w: string, gaps: seq<string>, words: seq<string>)
    requires |gaps| == |words| + 1
    requires words != [] ==> gaps[0] != []
    requires forall i :: 0 < i < |words| ==> gaps[i] != []
    ensures forall i :: 0 < i < |[w] + words| ==> ([g] + gaps)[i] != []
  {
    forall i | 0 < i < |[w] + words|
      ensures ([g] + gaps)[i] != []
    {
      assert ([g] + gaps)[i] == gaps[i - 1];
    }
  }

  /** Putting the gaps back between the words gives `s` again. */
  lemma {:induction false} InterleaveGaps(s: string)
    ensures |Gaps(s)| == |SplitWhitespace(s)| + 1
    ensures Interleave(Gaps(s), SplitWhitespace(s)) == s
    decreases |s|
  {
    GapsCount(s);
    LeadGapSplit(s);
    if TrimStart(s) != [] {
      var lead, w, rest := LeadGap(s), LeadingWord(TrimStart(s)), AfterFirstWord(s);
      assert |rest| < |s| && TrimStart(s) == w + rest by {
        FirstWordSplit(s);
      }
      GapsCount(rest);
      InterleaveGaps(rest);
      assert Interleave(Gaps(s), SplitWhitespace(s)) == lead + w + rest by {
        SplitWhitespaceStep(s);
        InterleaveCons(lead, w, Gaps(rest), SplitWhitespace(rest));
      }
      JoinAssoc(lead, w, rest);
    }
  }

  /** `Interleave` on a gap and a word put in front. */
  lemma InterleaveCons(g: string, w: string, gaps: seq<string>, words: seq<string>)
    requires |gaps| == |words| + 1
    ensures Interleave([g] + gaps, [w] + words) == g + w + Interleave(gaps, words)
  {
    assert ([g] + gaps)[1..] == gaps && ([w] + words)[1..] == words;
  }

  /** A word followed by whitespace or by nothing is the leading word. */
  lemma {:induction false} LeadingWordOf(w: string, x: string)
    requires NoSpace(w) && (x == [] || IsSpace(x[0]))
    ensures LeadingWord(w + x) == w
  {
    if w == [] {
      assert w + x == x;
    } else {
      assert (w + x)[0] == w[0] && (w + x)[1..] == w[1..] + x;
      assert NoSpace(w[1..]) by {
        assert forall j :: 0 <= j < |w[1..]| ==> w[1..][j] == w[j + 1];
      }
      LeadingWordOf(w[1..], x);
    }
  }

  /** Words without whitespace, joined by single spaces, split back into themselves. */
  lemma {:induction false} SplitJoinWords(words: seq<string>)
    requires forall i :: 0 <= i < |words| ==> words[i] != [] && NoSpace(words[i])
    ensures SplitWhitespace(Join(" ", words)) == words
  {
    if words != [] {
      var w := words[0];
      if |words| == 1 {
        assert Join(" ", words) == w + [];
        LeadingWordOf(w, []);
        assert w[|w|..] == [];
      } else {
        var rest := Join(" ", words[1..]);
        var j := w + (" " + rest);
        assert Join(" ", words) == j;
        LeadingWordOf(w, " " + rest);
        SplitJoinWords(words[1..]);
        assert rest != [] && rest[0] == words[1][0] by {
          if |words| == 2 {
            assert rest == words[1];
          } else {
            assert rest == words[1] + " " + Join(" ", words[2..]);
          }
        }
        assert TrimStart(j) == j;
        assert j[|w|..] == " " + rest;
        assert TrimStart(" " + rest) == TrimStart(rest) == rest;
      }
    }
  }

  /** Collapsing keeps the words of the text, in order. */
  lemma CollapseKeepsWords(s: string)
    ensures SplitWhitespace(CollapseWhitespace(s)) == SplitWhitespace(s)
  {
    SplitJoinWords(SplitWhitespace(s));
  }

  /** Collapsing drops only whitespace: the text without it is unchanged. */
  lemma CollapseKeepsContent(s: string)
    ensures NonSpace(CollapseWhitespace(s)) == NonSpace(s)
  {
    CollapseKeepsWords(s);
    SplitWhitespaceKeepsContent(s);
    SplitWhitespaceKeepsContent(CollapseWhitespace(s));
  }

  /** Python's `s.replace(pat, rep)`: leftmost, non-overlapping occurrences of `pat` replaced. */
  function Replace(s: string, pat: string, rep: string): string
    requires pat != []
    decreases |s|
  {
    if s == [] then []
    else if StartsWith(s, pat) then rep + Replace(s[|pat|..], pat, rep)
    else [s[0]] + Replace(s[1..], pat, rep)
  }

  /** No two neighbouring characters of `s` are both `c`. */
  predicate NoPair(s: string, c: char) {
    forall i :: 0 <= i < |s| - 1 ==> !(s[i] == c && s[i + 1] == c)
  }

  /**
   * Deleting every `cc` left to right leaves no `cc` behind: a `c` that
   * survives was not followed by another `c`.
   */
  lemma {:induction false} ReplacePairGone(s: string, c: char)
    ensures NoPair(Replace(s, [c, c], []), c)
    ensures s != [] && s[0] != c ==> Replace(s, [c, c], []) != [] && Replace(s, [c, c], [])[0] == s[0]
    decreases |s|
  {
    if s != [] {
      if StartsWith(s, [c, c]) {
        ReplacePairGone(s[2..], c);
        assert Replace(s, [c, c], []) == [] + Replace(s[2..], [c, c], []);
      } else {
        var rest := Replace(s[1..], [c, c], []);
        ReplacePairGone(s[1..], c);
        var r := Replace(s, [c, c], []);
        assert r == [s[0]] + rest;
        if s[0] == c && |s| > 1 {
          assert s[..2] != [c, c];
          assert s[1] != c;
        }
        forall i | 0 <= i < |r| - 1 ensures !(r[i] == c && r[i + 1] == c) {
          if i > 0 {
            assert r[i] == rest[i - 1] && r[i + 1] == rest[i];
          }
        }
      }
    }
  }

  /** Every occurrence of the single character `c` in `s` replaced by `rep`. */
  function SubstChar(s: string, c: char, rep: string): (r: string)
    ensures forall j :: 0 <= j < |r| ==> (r[j] in s && r[j] != c) || r[j] in rep
  {
    if s == [] then []
    else
      var head := if s[0] == c then rep else [s[0]];
      var tail := SubstChar(s[1..], c, rep);
      assert forall j :: 0 <= j < |tail| ==> tail[j] in s[1..] ==> tail[j] in s;
      head + tail
  }

  /** For a one-character pattern, Python's `replace` is plain character substitution. */
  lemma {:induction false} ReplaceSingleChar(s: string, c: char, rep: string)
    ensures Replace(s, [c], rep) == SubstChar(s, c, rep)
  {
    if s != [] {
      ReplaceSingleChar(s[1..], c, rep);
      assert StartsWith(s, [c]) <==> s[0] == c;
      assert s[|[c]|..] == s[1..];
    }
  }

  lemma {:induction false} SubstCharAppend(a: string, b: string, c: char, rep: string)
    ensures SubstChar(a + b, c, rep) == SubstChar(a, c, rep) + SubstChar(b, c, rep)
  {
    if a == [] {
      assert a + b == b;
    } else {
      assert (a + b)[0] == a[0];
      assert (a + b)[1..] == a[1..] + b;
      SubstCharAppend(a[1..], b, c, rep);
      var head := if a[0] == c then rep else [a[0]];
      assert SubstChar(a + b, c, rep) == head + SubstChar(a[1..] + b, c, rep);
      assert SubstChar(a, c, rep) == head + SubstChar(a[1..], c, rep);
      JoinAssoc(head, SubstChar(a[1..], c, rep), SubstChar(b, c, rep));
    }
  }

  /** Python's `s[:n]` on a string or a list. */
  function Take<T>(s: seq<T>, n: nat): (r: seq<T>)
    ensures |r| <= n && |r| <= |s| && r == s[..|r|]
    ensures |s| <= n ==> r == s
    ensures |s| > n ==> |r| == n
  {
    if |s| <= n then s else s[..n]
  }

  /** Python's `str(n)` for an integer. */
  function IntToString(n: int): (r: string)
    ensures r != []
    decreases if n < 0 then 1 - n else n
  {
    if n < 0 then "-" + IntToString(-n)
    else if n < 10 then [DigitChar(n)]
    else IntToString(n / 10) + [DigitChar(n % 10)]
  }

  function DigitChar(d: int): (c: char)
    requires 0 <= d < 10
    ensures IsDecimalDigit(c) && DigitValue(c) == d
  {
    ('0' as int + d) as char
  }

  predicate IsDecimalDigit(c: char) {
    '0' <= c <= '9'
  }

  function DigitValue(c: char): int {
    c as int - '0' as int
  }

  /** The number a string of decimal digits denotes, read most significant digit first. */
  function DecimalValue(s: string): int {
    if s == [] then 0 else DecimalValue(s[..|s| - 1]) * 10 + DigitValue(s[|s| - 1])
  }

  /**
   * `str(n)` of a non-negative `n` is all decimal digits, denotes `n`, and
   * has no leading zero unless it is `"0"` itself.
   */
  lemma {:induction false} IntToStringDecimal(n: int)
    requires n >= 0
    ensures var r := IntToString(n);
            && (forall i :: 0 <= i < |r| ==> IsDecimalDigit(r[i]))
            && DecimalValue(r) == n
            && (r[0] == '0' <==> n == 0)
    decreases n
  {
    var r := IntToString(n);
    if n >= 10 {
      var p := IntToString(n / 10);
      IntToStringDecimal(n / 10);
      assert r == p + [DigitChar(n % 10)];
      assert r[..|r| - 1] == p;
      assert r[0] == p[0];
    }
  }

  /** `str(n)` begins with a minus sign exactly when `n` is negative, and what follows is `str(-n)`. */
  lemma IntToStringSign(n: int)
    ensures var r := IntToString(n);
            && (r[0] == '-' <==> n < 0)
            && (n < 0 ==> r[1..] == IntToString(-n))
  {
    if n >= 0 {
      IntToStringDecimal(n);
    }
  }
}
