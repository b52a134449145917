/** The regular expressions of the field extractor. Each of them is a concatenation of
    bounded repetitions of one character class, so its language is given by `Matches`. The
    matches `re.findall` reports are described by spans of the searched text; the plain digit
    pattern `\d{10,15}` is also scanned concretely, leftmost first and greedily. */
module Patterns {
  import opened Wrappers
  import opened Strings

  datatype CharClass =
    | Digit             // \d
    | Separator         // [-.\s]
    | Literal(c: char)  // one literal character, such as \+ or @
    | LocalPart         // [A-Za-z0-9._%+-]
    | DomainPart        // [A-Za-z0-9.-]
    | TopLevel          // [A-Z|a-z]

  predicate InClass(c: char, k: CharClass) {
    match k
    case Digit => IsDigit(c)
    case Separator => c == '-' || c == '.' || IsSpace(c)
    case Literal(l) => c == l
    case LocalPart => IsAlpha(c) || IsDigit(c) || c == '.' || c == '_' || c == '%' || c == '+' || c == '-'
    case DomainPart => IsAlpha(c) || IsDigit(c) || c == '.' || c == '-'
    case TopLevel => IsAlpha(c) || c == '|'
  }

  /** `cls{min,max}`; `max == None` is an unbounded repetition (`+`, `{2,}`). */
  datatype Atom = Atom(cls: CharClass, min: nat, max: Option<nat>)

  type Pattern = seq<Atom>

  predicate Within(n: nat, max: Option<nat>) {
    max.None? || n <= max.value
  }

  /** The piece `s[lo..hi]` is a match of the single atom `a`. */
  predicate AtomAt(a: Atom, s: string, lo: nat, hi: nat) {
    && lo <= hi <= |s|
    && a.min <= hi - lo && Within(hi - lo, a.max)
    && forall k | lo <= k < hi :: InClass(s[k], a.cls)
  }

  /** `cuts` splits `s` into consecutive pieces, the i-th running from `cuts[i]` to
      `cuts[i + 1]` and matching the i-th atom of `pat`. */
  predicate Cuts(pat: Pattern, s: string, cuts: seq<nat>) {
    && |cuts| == |pat| + 1 && cuts[0] == 0 && cuts[|pat|] == |s|
    && forall i | 0 <= i < |pat| :: AtomAt(pat[i], s, cuts[i], cuts[i + 1])
  }

  /** `s` belongs to the language of `pat`: it splits into consecutive pieces, one per atom,
      each of an allowed length and made of characters of that atom's class. */
  ghost predicate Matches(pat: Pattern, s: string) {
    exists cuts: seq<nat> :: Cuts(pat, s, cuts)
  }

  /** `[A-Za-z0-9._%+-]+@[A-Za-z0-9.-]+\.[A-Z|a-z]{2,}`; the `\b` anchors of the source
      constrain only where a match may start and end, not what it contains. */
  const EmailPattern: Pattern := [
    Atom(LocalPart, 1, None), Atom(Literal('@'), 1, Some(1)), Atom(DomainPart, 1, None),
    Atom(Literal('.'), 1, Some(1)), Atom(TopLevel, 2, None)]

  /** `\+?\d{1,4}[-.\s]?\(?\d{1,4}\)?[-.\s]?\d{1,4}[-.\s]?\d{1,9}`. */
  const InternationalPattern: Pattern := [
    Atom(Literal('+'), 0, Some(1)), Atom(Digit, 1, Some(4)), Atom(Separator, 0, Some(1)),
    Atom(Literal('('), 0, Some(1)), Atom(Digit, 1, Some(4)), Atom(Literal(')'), 0, Some(1)),
    Atom(Separator, 0, Some(1)), Atom(Digit, 1, Some(4)), Atom(Separator, 0, Some(1)),
    Atom(Digit, 1, Some(9))]

  /** `\(?\d{3}\)?[-.\s]?\d{3}[-.\s]?\d{4}`. */
  const UsPattern: Pattern := [
    Atom(Literal('('), 0, Some(1)), Atom(Digit, 3, Some(3)), Atom(Literal(')'), 0, Some(1)),
    Atom(Separator, 0, Some(1)), Atom(Digit, 3, Some(3)), Atom(Separator, 0, Some(1)),
    Atom(Digit, 4, Some(4))]

  /** `\d{10,15}`. */
  const DigitRunPattern: Pattern := [Atom(Digit, 10, Some(15))]

  /** The half-open piece `[lo, hi)` of a searched text. */
  datatype Span = Span(lo: nat, hi: nat)

  /** `spans` describe what `re.findall(pat, text)` may report: pieces of `text`, in
      left-to-right order, not overlapping, each in the language of `pat`. */
  ghost predicate SpansMatch(text: string, spans: seq<Span>, pat: Pattern) {
    && (forall k | 0 <= k < |spans| ::
          spans[k].lo <= spans[k].hi <= |text| && Matches(pat, text[spans[k].lo..spans[k].hi]))
    && (forall k | 0 <= k < |spans| - 1 :: spans[k].hi <= spans[k + 1].lo)
  }

  predicate InBounds(text: string, spans: seq<Span>) {
    forall k | 0 <= k < |spans| :: spans[k].lo <= spans[k].hi <= |text|
  }

  /** The matched strings, as `re.findall` returns them for a pattern without groups. */
  function Findall(text: string, spans: seq<Span>): (ms: seq<string>)
    requires InBounds(text, spans)
    ensures |ms| == |spans|
    ensures forall k | 0 <= k < |ms| :: ms[k] == text[spans[k].lo..spans[k].hi]
  {
    seq(|spans|, k requires 0 <= k < |spans| => text[spans[k].lo..spans[k].hi])
  }

  /** Cut points never go down. */
  lemma {:induction false} CutsMonotone(pat: Pattern, s: string, cuts: seq<nat>, a: nat, b: nat)
    requires Cuts(pat, s, cuts) && a <= b <= |pat|
    ensures cuts[a] <= cuts[b]
    decreases b - a
  {
    if a < b {
      CutsMonotone(pat, s, cuts, a + 1, b);
      assert AtomAt(pat[a], s, cuts[a], cuts[a + 1]);
    }
  }

  /** Every position of `s` at or after cut `from` lies in a piece numbered `from` or later. */
  lemma {:induction false} PieceOf(pat: Pattern, s: string, cuts: seq<nat>, from: nat, k: nat) returns (i: nat)
    requires Cuts(pat, s, cuts) && from <= |pat| && cuts[from] <= k < |s|
    ensures from <= i < |pat| && cuts[i] <= k < cuts[i + 1]
    decreases |pat| - from
  {
    if from == |pat| {
      assert false;
    } else if k < cuts[from + 1] {
      i := from;
    } else {
      i := PieceOf(pat, s, cuts, from + 1, k);
    }
  }

  /** An atom that must consume at least one character leaves a character of its class in
      every match. */
  lemma MatchUsesAtom(pat: Pattern, s: string, i: nat)
    requires Matches(pat, s)
    requires i < |pat| && pat[i].min >= 1
    ensures exists k | 0 <= k < |s| :: InClass(s[k], pat[i].cls)
  {
    var cuts :| Cuts(pat, s, cuts);
    assert AtomAt(pat[i], s, cuts[i], cuts[i + 1]);
    assert InClass(s[cuts[i]], pat[i].cls);
  }

  /** A character that the classes of the atoms from `from` on never admit does not occur
      in a match after cut `from`. */
  lemma AvoidsAfter(pat: Pattern, s: string, cuts: seq<nat>, from: nat, c: char)
    requires Cuts(pat, s, cuts) && from <= |pat|
    requires forall j | from <= j < |pat| :: !InClass(c, pat[j].cls)
    ensures forall k | cuts[from] <= k < |s| :: s[k] != c
  {
    forall k | cuts[from] <= k < |s| ensures s[k] != c {
      var i := PieceOf(pat, s, cuts, from, k);
      assert AtomAt(pat[i], s, cuts[i], cuts[i + 1]);
    }
  }

  lemma CountOne(a: string, b: string, c: char)
    requires c !in a && c !in b
    ensures multiset(a + [c] + b)[c] == 1
  {
  }

  /** A pattern whose second atom is exactly one `c` and whose other atoms never admit `c`
      matches only strings holding exactly one `c`. */
  lemma OneLiteral(pat: Pattern, s: string, c: char)
    requires |pat| >= 2 && pat[1] == Atom(Literal(c), 1, Some(1)) && Matches(pat, s)
    requires !InClass(c, pat[0].cls)
    requires forall j | 2 <= j < |pat| :: !InClass(c, pat[j].cls)
    ensures multiset(s)[c] == 1
  {
    var cuts :| Cuts(pat, s, cuts);
    assert AtomAt(pat[0], s, cuts[0], cuts[1]);
    assert AtomAt(pat[1], s, cuts[1], cuts[2]);
    var n := cuts[1];
    assert cuts[2] == n + 1 && s[n] == c;
    assert c !in s[..n] by {
      forall k | 0 <= k < n ensures s[..n][k] != c {
        assert InClass(s[k], pat[0].cls);
      }
    }
    AvoidsAfter(pat, s, cuts, 2, c);
    var rest := s[n + 1..];
    assert c !in rest by {
      forall k | 0 <= k < |rest| ensures rest[k] != c {
        assert rest[k] == s[n + 1 + k];
      }
    }
    assert s == s[..n] + [c] + s[n + 1..];
    CountOne(s[..n], s[n + 1..], c);
  }

  lemma EmailShape()
    ensures |EmailPattern| >= 2 && EmailPattern[1] == Atom(Literal('@'), 1, Some(1))
    ensures !InClass('@', EmailPattern[0].cls)
    ensures forall j | 2 <= j < |EmailPattern| :: !InClass('@', EmailPattern[j].cls)
  {
  }

  /** Every email match holds exactly one `@`. */
  lemma EmailHasOneAt(s: string)
    requires Matches(EmailPattern, s)
    ensures multiset(s)['@'] == 1
  {
    EmailShape();
    OneLiteral(EmailPattern, s, '@');
  }

  /** A class that admits no whitespace character. */
  predicate SpaceFree(k: CharClass) {
    k != Separator && (k.Literal? ==> !IsSpace(k.c))
  }

  lemma SpaceFreeClass(c: char, k: CharClass)
    requires InClass(c, k) && SpaceFree(k)
    ensures !IsSpace(c)
  {
  }

  /** Every match of `pat` is non-empty and starts with a character other than whitespace:
      atom `m` cannot be skipped, and it and every atom before it are space-free. */
  predicate StartsSpaceFree(pat: Pattern, m: nat) {
    m < |pat| && pat[m].min >= 1 && forall j | 0 <= j <= m :: SpaceFree(pat[j].cls)
  }

  lemma MatchStart(pat: Pattern, s: string, m: nat)
    requires Matches(pat, s) && StartsSpaceFree(pat, m)
    ensures s != [] && !IsSpace(s[0])
  {
    var cuts :| Cuts(pat, s, cuts);
    assert AtomAt(pat[m], s, cuts[m], cuts[m + 1]);
    CutsMonotone(pat, s, cuts, m + 1, |pat|);
    var i := PieceOf(pat, s, cuts, 0, 0);
    if i > m {
      CutsMonotone(pat, s, cuts, m + 1, i);
      assert false;
    }
    assert AtomAt(pat[i], s, cuts[i], cuts[i + 1]);
    SpaceFreeClass(s[0], pat[i].cls);
  }

  /** Every match of a pattern whose last atom is space-free and cannot be skipped is
      non-empty and ends with a character other than whitespace. */
  lemma MatchEnd(pat: Pattern, s: string)
    requires Matches(pat, s)
    requires pat != [] && pat[|pat| - 1].min >= 1 && SpaceFree(pat[|pat| - 1].cls)
    ensures s != [] && !IsSpace(s[|s| - 1])
  {
    var cuts :| Cuts(pat, s, cuts);
    var n := |pat| - 1;
    assert AtomAt(pat[n], s, cuts[n], cuts[n + 1]);
    assert InClass(s[|s| - 1], pat[n].cls);
    SpaceFreeClass(s[|s| - 1], pat[n].cls);
  }

  /** The three phone patterns, in the order they are tried. */
  datatype Phone = International | UsFormat | PlainDigits

  function PhonePattern(k: Phone): Pattern {
    match k
    case International => InternationalPattern
    case UsFormat => UsPattern
    case PlainDigits => DigitRunPattern
  }

  /** The atom of a phone pattern that always consumes a digit and is preceded only by
      space-free atoms. */
  function FirstDigitAtom(k: Phone): nat {
    if k == PlainDigits then 0 else 1
  }

  lemma PhonePatternShape(k: Phone)
    ensures StartsSpaceFree(PhonePattern(k), FirstDigitAtom(k))
    ensures PhonePattern(k)[FirstDigitAtom(k)].cls == Digit
    ensures var pat := PhonePattern(k); pat[|pat| - 1].min >= 1 && SpaceFree(pat[|pat| - 1].cls)
  {
  }

  /** Every phone match is non-empty and starts and ends with a non-blank character. */
  lemma PhoneMatchEdges(k: Phone, s: string)
    requires Matches(PhonePattern(k), s)
    ensures s != [] && !IsSpace(s[0]) && !IsSpace(s[|s| - 1])
  {
    PhonePatternShape(k);
    MatchStart(PhonePattern(k), s, FirstDigitAtom(k));
    MatchEnd(PhonePattern(k), s);
  }

  /** Every phone match holds a digit. */
  lemma PhoneMatchHasDigit(k: Phone, s: string)
    requires Matches(PhonePattern(k), s)
    ensures exists i | 0 <= i < |s| :: IsDigit(s[i])
  {
    PhonePatternShape(k);
    MatchUsesAtom(PhonePattern(k), s, FirstDigitAtom(k));
  }

  predicate TenDigitsAt(s: string, p: nat) {
    p + 10 <= |s| && forall k | p <= k < p + 10 :: IsDigit(s[k])
  }

  /** The number of consecutive digits of `s` from position `i`. */
  function DigitsFrom(s: string, i: nat): (n: nat)
    requires i <= |s|
    ensures i + n <= |s|
    ensures forall k | i <= k < i + n :: IsDigit(s[k])
    ensures i + n == |s| || !IsDigit(s[i + n])
    decreases |s| - i
  {
    if i == |s| || !IsDigit(s[i]) then 0 else 1 + DigitsFrom(s, i + 1)
  }

  /** How many digits `\d{10,15}` takes at `from` when it can match there: the digits that
      follow, but at most fifteen. */
  function RunLength(s: string, from: nat): (n: nat)
    requires from <= |s|
    ensures n <= 15 && from + n <= |s|
    ensures forall k | from <= k < from + n :: IsDigit(s[k])
    ensures n == 15 || from + n == |s| || !IsDigit(s[from + n])
  {
    var d := DigitsFrom(s, from);
    if d <= 15 then d else 15
  }

  lemma DigitRunMatches(x: string)
    requires 10 <= |x| <= 15 && forall k | 0 <= k < |x| :: IsDigit(x[k])
    ensures Matches(PhonePattern(PlainDigits), x)
  {
    assert Cuts(PhonePattern(PlainDigits), x, [0, |x|]);
  }

  /** `sp` covers ten to fifteen consecutive digits of `s`. */
  predicate DigitRun(s: string, sp: Span) {
    sp.lo + 10 <= sp.hi <= sp.lo + 15 && sp.hi <= |s| && forall k | sp.lo <= k < sp.hi :: IsDigit(s[k])
  }

  /** The digit run `sp` stops only where the cap of fifteen or the digits run out. */
  predicate Greedy(s: string, sp: Span) {
    sp.hi - sp.lo == 15 || sp.hi >= |s| || !IsDigit(s[sp.hi])
  }

  /** A span the scan from `from` may report. */
  predicate ScannedRun(s: string, from: nat, sp: Span) {
    from <= sp.lo && DigitRun(s, sp) && Greedy(s, sp)
  }

  predicate Ordered(r: seq<Span>) {
    forall k | 0 <= k < |r| - 1 :: r[k].hi <= r[k + 1].lo
  }

  lemma ScannedCons(s: string, from: nat, sp: Span, rest: seq<Span>)
    requires ScannedRun(s, from, sp) && Ordered(rest)
    requires forall k | 0 <= k < |rest| :: ScannedRun(s, sp.hi, rest[k])
    ensures Ordered([sp] + rest)
    ensures forall k | 0 <= k < |[sp] + rest| :: ScannedRun(s, from, ([sp] + rest)[k])
  {
    var r := [sp] + rest;
    forall k | 1 <= k < |r| ensures r[k] == rest[k - 1] && ScannedRun(s, from, r[k]) {
      assert ScannedRun(s, sp.hi, rest[k - 1]);
    }
  }

  lemma ScannedLater(s: string, from: nat, r: seq<Span>)
    requires forall k | 0 <= k < |r| :: ScannedRun(s, from + 1, r[k])
    ensures forall k | 0 <= k < |r| :: ScannedRun(s, from, r[k])
  {
    forall k | 0 <= k < |r| ensures ScannedRun(s, from, r[k]) {
      assert ScannedRun(s, from + 1, r[k]);
    }
  }

  /** `re.findall(r'\d{10,15}', s[from..])` as Python's engine performs it: at each position
      try the pattern, take as many digits as it allows (at most 15), and continue after the
      match; where fewer than ten digits follow, move on by one character. */
  function DigitRunSpans(s: string, from: nat): seq<Span>
    requires from <= |s|
    decreases |s| - from
  {
    if from == |s| then []
    else
      var n := RunLength(s, from);
      if n >= 10 then [Span(from, from + n)] + DigitRunSpans(s, from + n)
      else DigitRunSpans(s, from + 1)
  }

  /** The scan reports ordered digit runs starting at `from` or later, each as long as the
      digits and the cap of fifteen allow. */
  lemma {:induction false} DigitRunSpansSound(s: string, from: nat)
    requires from <= |s|
    ensures Ordered(DigitRunSpans(s, from))
    ensures forall k | 0 <= k < |DigitRunSpans(s, from)| :: ScannedRun(s, from, DigitRunSpans(s, from)[k])
    decreases |s| - from
  {
    if from < |s| {
      var n := RunLength(s, from);
      if n >= 10 {
        DigitRunSpansSound(s, from + n);
        ScannedCons(s, from, Span(from, from + n), DigitRunSpans(s, from + n));
      } else {
        DigitRunSpansSound(s, from + 1);
        ScannedLater(s, from, DigitRunSpans(s, from + 1));
      }
    }
  }

  /** Every span of the scan is a match of `\d{10,15}`. */
  lemma DigitRunSpansMatch(s: string, from: nat)
    requires from <= |s|
    ensures SpansMatch(s, DigitRunSpans(s, from), PhonePattern(PlainDigits))
  {
    var r := DigitRunSpans(s, from);
    DigitRunSpansSound(s, from);
    forall k | 0 <= k < |r|
      ensures Matches(PhonePattern(PlainDigits), s[r[k].lo..r[k].hi])
    {
      assert ScannedRun(s, from, r[k]);
      DigitRunMatches(s[r[k].lo..r[k].hi]);
    }
  }

  /** Position `p` lies inside one of the spans. */
  predicate Covered(r: seq<Span>, p: nat) {
    exists k | 0 <= k < |r| :: r[k].lo <= p < r[k].hi
  }

  lemma CoveredCons(sp: Span, rest: seq<Span>, p: nat)
    requires Covered(rest, p)
    ensures Covered([sp] + rest, p)
  {
    var k :| 0 <= k < |rest| && rest[k].lo <= p < rest[k].hi;
    assert ([sp] + rest)[k + 1] == rest[k];
  }

  /** Where ten digits begin, the scan takes at least ten. */
  lemma TenDigitsTaken(s: string, p: nat)
    requires TenDigitsAt(s, p)
    ensures RunLength(s, p) >= 10
  {
  }

  /** A scan that takes a run at `from` covers every position of that run. */
  lemma CoverFirstRun(s: string, from: nat, p: nat)
    requires from < |s| && from <= p < from + RunLength(s, from) && RunLength(s, from) >= 10
    ensures Covered(DigitRunSpans(s, from), p)
  {
    var r := DigitRunSpans(s, from);
    assert r[0] == Span(from, from + RunLength(s, from));
  }

  /** A scan that takes a run at `from` covers whatever the scan after that run covers. */
  lemma CoverAfterRun(s: string, from: nat, p: nat)
    requires from < |s| && RunLength(s, from) >= 10
    requires Covered(DigitRunSpans(s, from + RunLength(s, from)), p)
    ensures Covered(DigitRunSpans(s, from), p)
  {
    var n := RunLength(s, from);
    var rest := DigitRunSpans(s, from + n);
    assert DigitRunSpans(s, from) == [Span(from, from + n)] + rest;
    CoveredCons(Span(from, from + n), rest, p);
  }

  /** The scan misses nothing: every position where ten digits begin lies inside a match. */
  lemma {:induction false} DigitRunSpansCover(s: string, from: nat, p: nat)
    requires from <= p && TenDigitsAt(s, p)
    ensures Covered(DigitRunSpans(s, from), p)
    decreases |s| - from
  {
    var n := RunLength(s, from);
    if p == from {
      TenDigitsTaken(s, p);
      CoverFirstRun(s, from, p);
    } else if n >= 10 {
      if p < from + n {
        CoverFirstRun(s, from, p);
      } else {
        DigitRunSpansCover(s, from + n, p);
        CoverAfterRun(s, from, p);
      }
    } else {
      DigitRunSpansCover(s, from + 1, p);
    }
  }
}
