/** The fragment of Python's `str` and `re` behaviour the resume pipeline relies on:
    whitespace and character classes, `strip`, `lower`, `in` on strings, `split`, `join`,
    and `re.sub` of a one-character-class run. */
module Strings {

  /** Whitespace as `str.isspace()` and the `\s` class of `re` see it, restricted to ASCII and
      Latin-1: tab, line feed, vertical tab, form feed, carriage return, the information
      separators U+001C..U+001F, space, NEL (U+0085) and no-break space (U+00A0). */
  predicate IsSpace(c: char) {
    ('\t' <= c <= '\r') || ('\U{1C}' <= c <= ' ') || c == '\U{85}' || c == '\U{A0}'
  }

  /** `\d` and `str.isdigit()`, restricted to ASCII. */
  predicate IsDigit(c: char) { '0' <= c <= '9' }

  /** `str.isalpha()` on one character, restricted to ASCII. */
  predicate IsAlpha(c: char) { 'A' <= c <= 'Z' || 'a' <= c <= 'z' }

  predicate AllSpace(s: string) {
    forall i | 0 <= i < |s| :: IsSpace(s[i])
  }

  /** `str.isalpha()`: at least one character, and every character alphabetic. */
  predicate IsAlphaString(s: string) {
    |s| > 0 && forall i | 0 <= i < |s| :: IsAlpha(s[i])
  }

  function LowerChar(c: char): (d: char)
    ensures !('A' <= d <= 'Z')
    ensures IsSpace(d) <==> IsSpace(c)
  {
    if 'A' <= c <= 'Z' then (c as int + 32) as char else c
  }

  /** `str.lower()`, restricted to ASCII letters. */
  function Lower(s: string): (r: string)
    ensures |r| == |s|
    ensures forall i | 0 <= i < |r| :: !('A' <= r[i] <= 'Z')
  {
    seq(|s|, i requires 0 <= i < |s| => LowerChar(s[i]))
  }

  /** Lower-casing twice is lower-casing once. */
  lemma LowerIdempotent(s: string)
    ensures Lower(Lower(s)) == Lower(s)
  {
  }

  function EndsWith(s: string, suffix: string): bool {
    |suffix| <= |s| && s[|s| - |suffix|..] == suffix
  }

  /** Python's `needle in hay` on strings. */
  predicate Contains(hay: string, needle: string) {
    exists i | 0 <= i <= |hay| - |needle| :: OccursAt(hay, needle, i)
  }

  predicate OccursAt(hay: string, needle: string, i: nat) {
    i + |needle| <= |hay| && hay[i..i + |needle|] == needle
  }

  /** A slice of `hay` occurs in `hay` where it was taken. */
  lemma SliceOccurs(hay: string, lo: nat, hi: nat)
    requires lo <= hi <= |hay|
    ensures OccursAt(hay, hay[lo..hi], lo) && Contains(hay, hay[lo..hi])
  {
  }

  /** How many whitespace characters `s` starts with. */
  function LeadingSpace(s: string): (n: nat)
    ensures n <= |s| && AllSpace(s[..n])
    ensures n == |s| || !IsSpace(s[n])
  {
    if s != [] && IsSpace(s[0]) then 1 + LeadingSpace(s[1..]) else 0
  }

  /** How many whitespace characters `s` ends with. */
  function TrailingSpace(s: string): (n: nat)
    ensures n <= |s| && AllSpace(s[|s| - n..])
    ensures n == |s| || !IsSpace(s[|s| - n - 1])
  {
    if s != [] && IsSpace(s[|s| - 1]) then
      var n := TrailingSpace(s[..|s| - 1]);
      TrailingSpaceStep(s, n);
      n + 1
    else 0
  }

  lemma TrailingSpaceStep(s: string, n: nat)
    requires s != [] && IsSpace(s[|s| - 1])
    requires n <= |s| - 1 && AllSpace(s[..|s| - 1][|s| - 1 - n..])
    requires n == |s| - 1 || !IsSpace(s[..|s| - 1][|s| - 1 - n - 1])
    ensures AllSpace(s[|s| - (n + 1)..])
    ensures n + 1 == |s| || !IsSpace(s[|s| - (n + 1) - 1])
  {
    var tail := s[|s| - (n + 1)..];
    forall i | 0 <= i < |tail| ensures IsSpace(tail[i]) {
      if i < n {
        assert tail[i] == s[..|s| - 1][|s| - 1 - n..][i];
      }
    }
  }

  /** `str.lstrip()`. */
  function LStrip(s: string): (r: string)
    ensures r == [] || !IsSpace(r[0])
  {
    s[LeadingSpace(s)..]
  }

  /** `str.rstrip()`. */
  function RStrip(s: string): (r: string)
    ensures r == [] || !IsSpace(r[|r| - 1])
  {
    s[..|s| - TrailingSpace(s)]
  }

  /** `r` sits in `s` at `i`, with nothing but whitespace before and after it. */
  predicate StrippedAt(s: string, r: string, i: nat) {
    i + |r| <= |s| && s[i..i + |r|] == r && AllSpace(s[..i]) && AllSpace(s[i + |r|..])
  }

  /** `str.strip()`: `s` with its leading and trailing whitespace removed. The result is a
      contiguous piece of `s`, flanked in `s` by whitespace only, and starts and ends with
      something other than whitespace. */
  function Strip(s: string): (r: string)
    ensures r == [] || (!IsSpace(r[0]) && !IsSpace(r[|r| - 1]))
    ensures exists i | 0 <= i <= |s| - |r| :: StrippedAt(s, r, i)
  {
    StripWitness(s);
    RStrip(LStrip(s))
  }

  lemma StripWitness(s: string)
    ensures StrippedAt(s, RStrip(LStrip(s)), LeadingSpace(s))
  {
    var l := LStrip(s);
    StrippedAtParts(s, LeadingSpace(s), |l| - TrailingSpace(l));
  }

  /** The piece of `s` of length `k` from `i` is flanked by whitespace when what comes before
      `i` and after it is. */
  lemma StrippedAtParts(s: string, i: nat, k: nat)
    requires i + k <= |s|
    requires AllSpace(s[..i]) && AllSpace(s[i..][k..])
    ensures StrippedAt(s, s[i..][..k], i)
  {
    assert s[i..][k..] == s[i + k..];
  }

  lemma StripUnchanged(s: string)
    requires s == [] || (!IsSpace(s[0]) && !IsSpace(s[|s| - 1]))
    ensures Strip(s) == s
  {
  }

  /** A string is blank (`not s.strip()`) exactly when it is all whitespace. */
  lemma {:induction false} BlankIsAllSpace(s: string)
    ensures Strip(s) == [] <==> AllSpace(s)
  {
    if s != [] && IsSpace(s[0]) {
      BlankIsAllSpace(s[1..]);
      assert LStrip(s) == LStrip(s[1..]);
    }
  }

  /** `s` with its whitespace deleted. */
  function NonSpace(s: string): (r: string)
    ensures |r| <= |s|
    ensures forall i | 0 <= i < |r| :: !IsSpace(r[i])
  {
    if s == [] then []
    else if IsSpace(s[0]) then NonSpace(s[1..])
    else [s[0]] + NonSpace(s[1..])
  }

  lemma {:induction false} NonSpaceAppend(a: string, b: string)
    ensures NonSpace(a + b) == NonSpace(a) + NonSpace(b)
  {
    if a == [] {
      assert a + b == b;
    } else {
      assert (a + b)[1..] == a[1..] + b;
      NonSpaceAppend(a[1..], b);
    }
  }

  lemma {:induction false} NonSpaceOfSpace(s: string)
    requires AllSpace(s)
    ensures NonSpace(s) == []
  {
    if s != [] {
      NonSpaceOfSpace(s[1..]);
    }
  }

  /** Deleting the whitespace of `s` deletes what flanks its stripped piece. */
  lemma NonSpaceOfStripped(s: string, r: string, i: nat)
    requires StrippedAt(s, r, i)
    ensures NonSpace(s) == NonSpace(r)
  {
    assert s == s[..i] + r + s[i + |r|..];
    NonSpaceAppend(s[..i] + r, s[i + |r|..]);
    NonSpaceAppend(s[..i], r);
    NonSpaceOfSpace(s[..i]);
    NonSpaceOfSpace(s[i + |r|..]);
  }

  /** `s` with every `.` deleted: `s.replace('.', '')`. */
  function WithoutDots(s: string): (r: string)
    ensures |r| <= |s|
    ensures '.' !in r
  {
    if s == [] then []
    else if s[0] == '.' then WithoutDots(s[1..])
    else [s[0]] + WithoutDots(s[1..])
  }

  predicate IsDialChar(c: char) { IsDigit(c) || c == '+' }

  /** `re.sub(r'[^\d+]', '', s)`: the digits and plus signs of `s`, in order. */
  function DialChars(s: string): (r: string)
    ensures |r| <= |s|
    ensures forall i | 0 <= i < |r| :: IsDialChar(r[i])
  {
    if s == [] then []
    else if IsDialChar(s[0]) then [s[0]] + DialChars(s[1..])
    else DialChars(s[1..])
  }

  lemma {:induction false} DialCharsAppend(a: string, b: string)
    ensures DialChars(a + b) == DialChars(a) + DialChars(b)
  {
    if a == [] {
      assert a + b == b;
    } else {
      assert (a + b)[1..] == a[1..] + b;
      DialCharsAppend(a[1..], b);
    }
  }

  /** Every whitespace character is a space and no two of them are adjacent. */
  predicate SingleSpaced(s: string) {
    && (forall i | 0 <= i < |s| :: IsSpace(s[i]) ==> s[i] == ' ')
    && (forall i | 0 <= i < |s| - 1 :: !(IsSpace(s[i]) && IsSpace(s[i + 1])))
  }

  /** `re.sub(r'\s+', ' ', s)`: every maximal run of whitespace becomes one space. */
  function CollapseSpaces(s: string): (r: string)
    ensures r == [] <==> s == []
    ensures r != [] ==> (IsSpace(r[0]) <==> IsSpace(s[0])) && (IsSpace(r[|r| - 1]) <==> IsSpace(s[|s| - 1]))
    decreases |s|
  {
    if s == [] then []
    else if IsSpace(s[0]) then
      var n := LeadingSpace(s);
      " " + CollapseSpaces(s[n..])
    else
      [s[0]] + CollapseSpaces(s[1..])
  }

  /** After collapsing, every whitespace character is a space and no two are adjacent. */
  lemma {:induction false} CollapsedIsSingleSpaced(s: string)
    ensures SingleSpaced(CollapseSpaces(s))
    decreases |s|
  {
    if s != [] {
      if IsSpace(s[0]) {
        var n := LeadingSpace(s);
        CollapsedIsSingleSpaced(s[n..]);
        SingleSpacedCons(' ', CollapseSpaces(s[n..]));
      } else {
        CollapsedIsSingleSpaced(s[1..]);
        SingleSpacedCons(s[0], CollapseSpaces(s[1..]));
      }
    }
  }

  /** Putting a character in front of single-spaced text keeps it single-spaced, unless it
      is whitespace other than a space or doubles a space. */
  lemma SingleSpacedCons(c: char, rest: string)
    requires SingleSpaced(rest)
    requires IsSpace(c) ==> c == ' ' && (rest == [] || !IsSpace(rest[0]))
    ensures SingleSpaced([c] + rest)
  {
    assert forall i | 1 <= i < |rest| + 1 :: ([c] + rest)[i] == rest[i - 1];
  }

  /** Collapsing changes nothing but the whitespace. */
  lemma {:induction false} CollapseKeepsText(s: string)
    ensures NonSpace(CollapseSpaces(s)) == NonSpace(s)
    decreases |s|
  {
    if s != [] {
      if IsSpace(s[0]) {
        var n := LeadingSpace(s);
        var rest := CollapseSpaces(s[n..]);
        assert CollapseSpaces(s) == " " + rest;
        assert (" " + rest)[1..] == rest;
        CollapseKeepsText(s[n..]);
        assert s == s[..n] + s[n..];
        NonSpaceAppend(s[..n], s[n..]);
        NonSpaceOfSpace(s[..n]);
      } else {
        var rest := CollapseSpaces(s[1..]);
        assert CollapseSpaces(s) == [s[0]] + rest;
        assert ([s[0]] + rest)[1..] == rest;
        CollapseKeepsText(s[1..]);
      }
    }
  }

  /** Text whose whitespace is already single spaces is left as it is. */
  lemma {:induction false} CollapseSingleSpaced(s: string)
    requires SingleSpaced(s)
    ensures CollapseSpaces(s) == s
    decreases |s|
  {
    if s != [] {
      if IsSpace(s[0]) {
        assert LeadingSpace(s) == 1 by {
          if |s| > 1 {
            assert !IsSpace(s[1]);
          }
        }
      }
      CollapseSingleSpaced(s[1..]);
      assert [s[0]] + s[1..] == s;
    }
  }

  /** How many line feeds `s` starts with. */
  function LeadingNewlines(s: string): (n: nat)
    ensures 1 <= n <= |s| || (n == 0 && (s == [] || s[0] != '\n'))
    ensures n == |s| || s[n] != '\n'
  {
    if s != [] && s[0] == '\n' then 1 + LeadingNewlines(s[1..]) else 0
  }

  /** `re.sub(r'\n+', '\n', s)`: every run of line feeds becomes one line feed. */
  function SqueezeNewlines(s: string): (r: string)
    ensures forall i | 0 <= i < |r| - 1 :: !(r[i] == '\n' && r[i + 1] == '\n')
    ensures r == [] <==> s == []
    ensures s != [] ==> (r[0] == '\n' <==> s[0] == '\n')
    decreases |s|
  {
    if s == [] then []
    else if s[0] == '\n' then "\n" + SqueezeNewlines(s[LeadingNewlines(s)..])
    else [s[0]] + SqueezeNewlines(s[1..])
  }

  /** Text without two adjacent line feeds is left as it is. */
  lemma {:induction false} SqueezeUnchanged(s: string)
    requires forall i | 0 <= i < |s| - 1 :: !(s[i] == '\n' && s[i + 1] == '\n')
    ensures SqueezeNewlines(s) == s
    decreases |s|
  {
    if s != [] {
      if s[0] == '\n' {
        assert LeadingNewlines(s) == 1 by {
          if |s| > 1 {
            assert s[1] != '\n';
          }
        }
      }
      SqueezeUnchanged(s[1..]);
      assert [s[0]] + s[1..] == s;
    }
  }

  /** `str.split(sep)` for a one-character separator: never empty, pieces free of `sep`. */
  function Split(s: string, sep: char): (r: seq<string>)
    ensures |r| >= 1
    ensures forall k | 0 <= k < |r| :: sep !in r[k]
  {
    if s == [] then [[]]
    else
      var rest := Split(s[1..], sep);
      if s[0] == sep then [[]] + rest else [[s[0]] + rest[0]] + rest[1..]
  }

  /** `sep.join(parts)`. */
  function Join(parts: seq<string>, sep: string): string {
    if parts == [] then []
    else if |parts| == 1 then parts[0]
    else parts[0] + sep + Join(parts[1..], sep)
  }

  /** Joining pieces free of `sep` with `sep` and splitting at `sep` gives the pieces back. */
  lemma {:induction false} SplitJoin(parts: seq<string>, sep: char)
    requires |parts| >= 1
    requires forall k | 0 <= k < |parts| :: sep !in parts[k]
    ensures Split(Join(parts, [sep]), sep) == parts
    decreases parts
  {
    if |parts| == 1 {
      SplitWithoutSep(parts[0], sep);
    } else {
      SplitJoin(parts[1..], sep);
      SplitAfterPiece(parts[0], [sep] + Join(parts[1..], [sep]), sep);
      assert parts[0] + [sep] + Join(parts[1..], [sep]) == parts[0] + ([sep] + Join(parts[1..], [sep]));
      assert ([sep] + Join(parts[1..], [sep]))[1..] == Join(parts[1..], [sep]);
    }
  }

  /** A string without the separator is a single piece. */
  lemma {:induction false} SplitWithoutSep(s: string, sep: char)
    requires sep !in s
    ensures Split(s, sep) == [s]
  {
    if s != [] {
      SplitWithoutSep(s[1..], sep);
      assert [s[0]] + s[1..] == s;
    }
  }

  lemma {:induction false} SplitAfterPiece(piece: string, t: string, sep: char)
    requires sep !in piece
    requires t != [] && t[0] == sep
    ensures Split(piece + t, sep) == [piece] + Split(t[1..], sep)
  {
    if piece != [] {
      assert (piece + t)[1..] == piece[1..] + t;
      SplitAfterPiece(piece[1..], t, sep);
      assert [piece[0]] + piece[1..] == piece;
    } else {
      assert piece + t == t;
    }
  }

  /** The first piece starts the joined string. */
  lemma JoinPrefix(parts: seq<string>, sep: string)
    requires parts != []
    ensures parts[0] <= Join(parts, sep)
  {
  }

  /** Every piece occurs in the joined string. */
  lemma {:induction false} JoinPartOccurs(parts: seq<string>, sep: string, k: nat)
    requires k < |parts|
    ensures Contains(Join(parts, sep), parts[k])
  {
    var joined := Join(parts, sep);
    if k == 0 {
      JoinPrefix(parts, sep);
      assert OccursAt(joined, parts[0], 0);
    } else {
      JoinPartOccurs(parts[1..], sep, k - 1);
      assert parts[1..][k - 1] == parts[k];
      assert joined == (parts[0] + sep) + Join(parts[1..], sep);
      ContainsAfter(parts[0] + sep, Join(parts[1..], sep), parts[k]);
    }
  }

  /** What occurs in `b` occurs in `a + b`. */
  lemma ContainsAfter(a: string, b: string, x: string)
    requires Contains(b, x)
    ensures Contains(a + b, x)
  {
    var i :| 0 <= i <= |b| - |x| && OccursAt(b, x, i);
    assert (a + b)[|a| + i..|a| + i + |x|] == b[i..i + |x|];
    assert OccursAt(a + b, x, |a| + i);
  }

    /** Concatenation of a sequence of sequences. */
  function Flatten<T>(xss: seq<seq<T>>): (r: seq<T>) {
    if xss == [] then [] else xss[0] + Flatten(xss[1..])
  }

  lemma {:induction false} FlattenAppend<T>(a: seq<seq<T>>, b: seq<seq<T>>)
    ensures Flatten(a + b) == Flatten(a) + Flatten(b)
  {
    if a == [] {
      assert a + b == b;
    } else {
      assert (a + b)[1..] == a[1..] + b;
      FlattenAppend(a[1..], b);
    }
  }

  /** Flattening one more sequence appends it. */
  lemma FlattenSnoc<T>(xss: seq<seq<T>>, r: nat)
    requires r < |xss|
    ensures Flatten(xss[..r + 1]) == Flatten(xss[..r]) + xss[r]
  {
    assert xss[..r + 1] == xss[..r] + [xss[r]];
    FlattenAppend(xss[..r], [xss[r]]);
    assert [xss[r]][1..] == [];
  }

  /** A non-empty run of non-whitespace characters. */
  predicate IsWord(w: string) {
    w != [] && forall i | 0 <= i < |w| :: !IsSpace(w[i])
  }

  /** How many non-whitespace characters `s` starts with. */
  function WordLength(s: string): (n: nat)
    ensures n <= |s| && forall i | 0 <= i < n :: !IsSpace(s[i])
    ensures n == |s| || IsSpace(s[n])
    ensures s != [] && !IsSpace(s[0]) ==> n >= 1
  {
    if s != [] && !IsSpace(s[0]) then 1 + WordLength(s[1..]) else 0
  }

  /** `str.split()` with no argument: the maximal runs of non-whitespace characters. */
  function Words(s: string): (r: seq<string>)
    ensures forall k | 0 <= k < |r| :: IsWord(r[k])
    decreases |s|
  {
    if s == [] then []
    else if IsSpace(s[0]) then Words(s[1..])
    else
      var n := WordLength(s);
      [s[..n]] + Words(s[n..])
  }

  /** `WordLength` is the position of the first whitespace character, or the length. */
  lemma {:induction false} WordLengthIs(s: string, k: nat)
    requires k <= |s| && forall i | 0 <= i < k :: !IsSpace(s[i])
    requires k == |s| || IsSpace(s[k])
    ensures WordLength(s) == k
  {
    if k > 0 {
      WordLengthIs(s[1..], k - 1);
    }
  }

  /** Whitespace alone holds no word. */
  lemma {:induction false} WordsOfSpace(s: string)
    requires AllSpace(s)
    ensures Words(s) == []
  {
    if s != [] {
      WordsOfSpace(s[1..]);
    }
  }

  /** The words of two pieces that meet at whitespace are the words of each, in order. */
  lemma {:induction false} WordsAppend(a: string, b: string)
    requires a == [] || b == [] || IsSpace(a[|a| - 1]) || IsSpace(b[0])
    ensures Words(a + b) == Words(a) + Words(b)
    decreases |a|
  {
    if a == [] {
      assert a + b == b;
    } else if IsSpace(a[0]) {
      WordsAppend(a[1..], b);
      WordsAppendSpace(a, b);
    } else {
      var n := WordLength(a);
      WordsAppend(a[n..], b);
      WordsAppendWord(a, b);
    }
  }

  lemma WordsAppendSpace(a: string, b: string)
    requires a != [] && IsSpace(a[0])
    ensures Words(a + b) == Words(a[1..] + b) && Words(a) == Words(a[1..])
  {
    assert (a + b)[1..] == a[1..] + b;
  }

  lemma WordsAppendWord(a: string, b: string)
    requires a != [] && !IsSpace(a[0])
    requires b == [] || IsSpace(a[|a| - 1]) || IsSpace(b[0])
    ensures Words(a + b) == [a[..WordLength(a)]] + Words(a[WordLength(a)..] + b)
    ensures Words(a) == [a[..WordLength(a)]] + Words(a[WordLength(a)..])
  {
    var n := WordLength(a);
    WordLengthAppend(a, b);
    SliceAppend(a, b, n);
    WordsStart(a + b);
  }

  /** A string is its two slices at any cut. */
  lemma SliceJoin(s: string, m: nat)
    requires m <= |s|
    ensures s == s[..m] + s[m..]
  {
  }

  /** Slicing a concatenation inside its left part. */
  lemma SliceAppend(a: string, b: string, n: nat)
    requires n <= |a|
    ensures (a + b)[..n] == a[..n] && (a + b)[n..] == a[n..] + b
  {
  }

  /** The first word of text that starts with one, then the words after it. */
  lemma WordsStart(s: string)
    requires s != [] && !IsSpace(s[0])
    ensures Words(s) == [s[..WordLength(s)]] + Words(s[WordLength(s)..])
  {
  }

  /** A word that ends inside `a`, or at a seam of whitespace, is not lengthened by `b`. */
  lemma {:induction false} WordLengthAppend(a: string, b: string)
    requires b == [] || IsSpace(b[0]) || (a != [] && IsSpace(a[|a| - 1]))
    ensures WordLength(a + b) == WordLength(a)
  {
    if a == [] {
      assert a + b == b;
    } else if !IsSpace(a[0]) {
      assert (a + b)[1..] == a[1..] + b;
      WordLengthAppend(a[1..], b);
    }
  }

  /** Collapsing copies a leading run of non-whitespace characters unchanged. */
  lemma {:induction false} CollapseWord(w: string, t: string)
    requires forall i | 0 <= i < |w| :: !IsSpace(w[i])
    ensures CollapseSpaces(w + t) == w + CollapseSpaces(t)
  {
    if w == [] {
      assert w + t == t;
    } else {
      var s := w + t;
      assert s[0] == w[0] && s[1..] == w[1..] + t;
      assert CollapseSpaces(s) == [w[0]] + CollapseSpaces(w[1..] + t);
      CollapseWord(w[1..], t);
      assert [w[0]] + (w[1..] + CollapseSpaces(t)) == ([w[0]] + w[1..]) + CollapseSpaces(t);
      assert [w[0]] + w[1..] == w;
    }
  }

  /** Collapsing whitespace runs keeps the words, in order. */
  lemma {:induction false} CollapseKeepsWords(s: string)
    ensures Words(CollapseSpaces(s)) == Words(s)
    decreases |s|
  {
    if s != [] {
      if IsSpace(s[0]) {
        var n := LeadingSpace(s);
        CollapseKeepsWords(s[n..]);
        CollapseSpaceRun(s);
        SkipSpaceRun(s);
      } else {
        var m := WordLength(s);
        var w, t := s[..m], s[m..];
        CollapseKeepsWords(t);
        SliceJoin(s, m);
        CollapseWordThen(w, t);
      }
    }
  }

  /** A leading whitespace character adds no word. */
  lemma WordsAfterSpace(c: char, t: string)
    requires IsSpace(c)
    ensures Words([c] + t) == Words(t)
  {
    assert ([c] + t)[1..] == t;
  }

  lemma CollapseSpaceRun(s: string)
    requires s != [] && IsSpace(s[0])
    ensures Words(CollapseSpaces(s)) == Words(CollapseSpaces(s[LeadingSpace(s)..]))
  {
    var rest := CollapseSpaces(s[LeadingSpace(s)..]);
    assert CollapseSpaces(s) == [' '] + rest;
    WordsAfterSpace(' ', rest);
  }

  lemma SkipSpaceRun(s: string)
    requires s != [] && IsSpace(s[0])
    ensures Words(s) == Words(s[LeadingSpace(s)..])
  {
    var n := LeadingSpace(s);
    assert s == s[..n] + s[n..];
    WordsAppend(s[..n], s[n..]);
    WordsOfSpace(s[..n]);
  }

  /** A word followed by whitespace or nothing keeps its place as the first word. */
  lemma CollapseWordThen(w: string, t: string)
    requires IsWord(w) && (t == [] || IsSpace(t[0]))
    requires Words(CollapseSpaces(t)) == Words(t)
    ensures Words(CollapseSpaces(w + t)) == Words(w + t)
  {
    CollapseWord(w, t);
    CollapsedStart(t);
    WordsAppend(w, CollapseSpaces(t));
    WordsAppend(w, t);
  }

  /** Collapsed text starts with whitespace exactly when the original does. */
  lemma CollapsedStart(t: string)
    requires t == [] || IsSpace(t[0])
    ensures CollapseSpaces(t) == [] || IsSpace(CollapseSpaces(t)[0])
  {
  }

  /** A single word is its only word. */
  lemma WordsOfWord(w: string)
    requires IsWord(w)
    ensures Words(w) == [w]
  {
    WordLengthIs(w, |w|);
    assert w[..|w|] == w && w[|w|..] == [];
  }

  /** Stripping keeps the words. */
  lemma StripKeepsWords(s: string)
    ensures Words(Strip(s)) == Words(s)
  {
    StripWitness(s);
    StripPiecesKeepWords(s, LeadingSpace(s), RStrip(LStrip(s)));
  }

  lemma StripPiecesKeepWords(s: string, i: nat, r: string)
    requires StrippedAt(s, r, i)
    ensures Words(r) == Words(s)
  {
    var head, tail := s[..i], s[i + |r|..];
    assert s == head + (r + tail);
    WordsAppend(head, r + tail);
    WordsAppend(r, tail);
    WordsOfSpace(head);
    WordsOfSpace(tail);
  }

  /** Single-spaced text without surrounding whitespace is its words joined with one space:
      `' '.join(s.split()) == s`. */
  lemma {:induction false} SingleSpacedIsJoin(s: string)
    requires SingleSpaced(s)
    requires s == [] || (!IsSpace(s[0]) && !IsSpace(s[|s| - 1]))
    ensures Join(Words(s), " ") == s
    decreases |s|
  {
    if s != [] {
      var m := WordLength(s);
      if m == |s| {
        WordsOfWord(s);
      } else {
        var rest := s[m + 1..];
        SingleSpacedRest(s, m);
        SingleSpacedIsJoin(rest);
        WordsAfterWord(s, m);
        JoinCons(s[..m], Words(rest));
        SplitAtSpace(s, m);
      }
    }
  }

  /** After the first word and its space, single-spaced text is still single-spaced and
      starts and ends with a non-whitespace character. */
  lemma SingleSpacedRest(s: string, m: nat)
    requires SingleSpaced(s) && s != [] && !IsSpace(s[0]) && !IsSpace(s[|s| - 1])
    requires m == WordLength(s) < |s|
    ensures m + 1 < |s| && s[m] == ' '
    ensures SingleSpaced(s[m + 1..]) && !IsSpace(s[m + 1]) && !IsSpace(s[|s| - 1])
  {
    var rest := s[m + 1..];
    assert forall i | 0 <= i < |rest| :: rest[i] == s[m + 1 + i];
  }

  /** The words of text whose first word ends at a space before a non-whitespace character. */
  lemma WordsAfterWord(s: string, m: nat)
    requires m == WordLength(s) && m + 1 < |s| && IsSpace(s[m]) && !IsSpace(s[m + 1]) && m > 0
    ensures Words(s) == [s[..m]] + Words(s[m + 1..])
    ensures Words(s[m + 1..]) != []
  {
    assert s[m..][1..] == s[m + 1..];
  }

  lemma SplitAtSpace(s: string, m: nat)
    requires m < |s| && s[m] == ' '
    ensures s == s[..m] + " " + s[m + 1..]
  {
    assert s[m..m + 1] == " ";
    assert s == s[..m] + s[m..m + 1] + s[m + 1..];
  }

  /** Joining a list of at least two pieces puts the separator after the first. */
  lemma JoinCons(w: string, ws: seq<string>)
    requires ws != []
    ensures Join([w] + ws, " ") == w + " " + Join(ws, " ")
  {
    assert ([w] + ws)[1..] == ws;
  }
}
