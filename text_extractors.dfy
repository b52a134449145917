/** The rule-based field extractor: text normalisation, then one heuristic per field over
    the lines of the normalised text, the named entities of the language model and the
    matches of the field patterns. */
module TextExtractors {
  import opened Wrappers
  import opened Strings
  import opened Patterns
  import opened Schemas

  /** Lower-case words whose presence marks a line as naming a qualification. */
  const DegreeKeywords: set<string> := {
    "bs", "bsc", "ba", "be", "btech", "btec", "bachelor",
    "ms", "msc", "ma", "me", "mtech", "master", "masters",
    "mba", "bba", "mphil", "phd", "doctorate",
    "intermediate", "fsc", "fa", "hssc", "hsc",
    "diploma", "certificate", "degree"}

  /** Lower-case words whose presence marks a line as naming an institution. */
  const InstitutionKeywords: set<string> := {
    "university", "college", "institute", "school", "academy",
    "campus", "polytechnic", "technical", "engineering"}

  /** Lower-case words whose presence marks a line as an address, in the order they are tried. */
  const AddressKeywords: seq<string> := ["street", "st", "avenue", "ave", "road", "rd", "city", "state"]

  /** What the extractor needs from its libraries: the entity recogniser (`None` when it
      raises) and `re.findall` for the email pattern and the two structured phone patterns,
      each reporting the spans of the text it matched. */
  datatype Engine = Engine(
    ner: string -> Option<seq<Entity>>,
    email: string -> seq<Span>,
    international: string -> seq<Span>,
    us: string -> seq<Span>)

  /** The pattern engine reports, on every text, ordered non-overlapping matches of the
      pattern it stands for. */
  ghost predicate Sound(e: Engine) {
    && (forall t :: SpansMatch(t, e.email(t), EmailPattern))
    && (forall t :: SpansMatch(t, e.international(t), PhonePattern(International)))
    && (forall t :: SpansMatch(t, e.us(t), PhonePattern(UsFormat)))
  }

  // ---------------------------------------------------------------------------------------
  // Normalisation

  /** `re.sub(r'\n+', '\n', re.sub(r'\s+', ' ', text.strip()))`. */
  function Normalize(text: string): (r: string)
    ensures r == [] || (!IsSpace(r[0]) && !IsSpace(r[|r| - 1]))
    ensures SingleSpaced(r)
    ensures NonSpace(r) == NonSpace(text)
    ensures Words(r) == Words(text)
  {
    var collapsed := CollapseSpaces(Strip(text));
    NormalizeKeepsText(text);
    SqueezeUnchanged(collapsed);
    SqueezeNewlines(collapsed)
  }

  /** The first pass already turns every line feed into a space, so the second pass finds
      no line feed left to squeeze. */
  lemma NoNewlineWhenSingleSpaced(s: string)
    requires SingleSpaced(s)
    ensures '\n' !in s
    ensures forall i | 0 <= i < |s| - 1 :: !(s[i] == '\n' && s[i + 1] == '\n')
  {
    assert IsSpace('\n');
  }

  lemma NormalizeKeepsText(text: string)
    ensures NonSpace(CollapseSpaces(Strip(text))) == NonSpace(text)
    ensures SingleSpaced(CollapseSpaces(Strip(text)))
    ensures SqueezeNewlines(CollapseSpaces(Strip(text))) == CollapseSpaces(Strip(text))
    ensures Words(CollapseSpaces(Strip(text))) == Words(text)
  {
    var stripped := Strip(text);
    StripKeepsWords(text);
    CollapseKeepsWords(stripped);
    StripWitness(text);
    NonSpaceOfStripped(text, stripped, LeadingSpace(text));
    CollapseKeepsText(stripped);
    CollapsedIsSingleSpaced(stripped);
    NoNewlineWhenSingleSpaced(CollapseSpaces(stripped));
    SqueezeUnchanged(CollapseSpaces(stripped));
  }

  /** Normalised text holds no line feed at all: it is one line. */
  lemma NormalizedIsOneLine(text: string)
    ensures '\n' !in Normalize(text)
    ensures Lines(Normalize(text)) == [Normalize(text)]
  {
    NoNewlineWhenSingleSpaced(Normalize(text));
    SplitWithoutSep(Normalize(text), '\n');
  }

  /** Normalisation is `' '.join(text.split())`: the words of the text, in order, each
      separated from the next by exactly one space. */
  lemma NormalizeIsJoinedWords(text: string)
    ensures Normalize(text) == Join(Words(text), " ")
  {
    SingleSpacedIsJoin(Normalize(text));
  }

  /** Normalising twice is normalising once. */
  lemma NormalizeIdempotent(text: string)
    ensures Normalize(Normalize(text)) == Normalize(text)
  {
    var t := Normalize(text);
    StripUnchanged(t);
    CollapseSingleSpaced(t);
    NoNewlineWhenSingleSpaced(t);
    SqueezeUnchanged(t);
  }

  /** Normalised text is blank only when the original text was. */
  lemma NormalizeBlank(text: string)
    ensures Normalize(text) == [] <==> AllSpace(text)
  {
    var t := Normalize(text);
    if t == [] {
      NoSpaceLeft(text);
    } else {
      assert !IsSpace(t[0]);
      assert NonSpace(t) != [] by {
        assert t == [t[0]] + t[1..];
        NonSpaceAppend([t[0]], t[1..]);
      }
      if AllSpace(text) {
        NonSpaceOfSpace(text);
      }
    }
  }

  lemma NoSpaceLeft(text: string)
    requires NonSpace(text) == []
    ensures AllSpace(text)
  {
    if text != [] {
      assert text == [text[0]] + text[1..];
      NonSpaceAppend([text[0]], text[1..]);
      NoSpaceLeft(text[1..]);
    }
  }

  // ---------------------------------------------------------------------------------------
  // Searches over the lines of a text

  /** `text.split('\n')`. */
  function Lines(text: string): (r: seq<string>)
    ensures |r| >= 1
  {
    Split(text, '\n')
  }

  /** The index of the first line satisfying `p`, scanning top-down. */
  function FindFirst(lines: seq<string>, p: string -> bool): (r: Option<nat>)
    ensures r.Some? ==> r.value < |lines| && p(lines[r.value])
    ensures r.Some? ==> forall j | 0 <= j < r.value :: !p(lines[j])
    ensures r.None? ==> forall j | 0 <= j < |lines| :: !p(lines[j])
  {
    if lines == [] then None
    else if p(lines[0]) then Some(0)
    else match FindFirst(lines[1..], p)
      case None => None
      case Some(i) => Some(i + 1)
  }

  /** The index of the last line satisfying `p`, scanning bottom-up. */
  function FindLast(lines: seq<string>, p: string -> bool): (r: Option<nat>)
    ensures r.Some? ==> r.value < |lines| && p(lines[r.value])
    ensures r.Some? ==> forall j | r.value < j < |lines| :: !p(lines[j])
    ensures r.None? ==> forall j | 0 <= j < |lines| :: !p(lines[j])
  {
    if lines == [] then None
    else if p(lines[|lines| - 1]) then Some(|lines| - 1)
    else FindLast(lines[..|lines| - 1], p)
  }

  /** The stripped line found by a search, if any. */
  function LineAt(lines: seq<string>, found: Option<nat>): (r: Option<string>)
    requires found.Some? ==> found.value < |lines|
    ensures r.None? <==> found.None?
  {
    match found
    case None => None
    case Some(i) => Some(Strip(lines[i]))
  }

  /** The first line satisfying `p`, stripped. */
  function FirstLine(lines: seq<string>, p: string -> bool): (r: Option<string>)
    ensures r.Some? ==> exists i | 0 <= i < |lines| ::
      p(lines[i]) && r.value == Strip(lines[i]) && forall j | 0 <= j < i :: !p(lines[j])
    ensures r.None? <==> forall j | 0 <= j < |lines| :: !p(lines[j])
  {
    LineAt(lines, FindFirst(lines, p))
  }

  /** The last line satisfying `p`, stripped. */
  function LastLine(lines: seq<string>, p: string -> bool): (r: Option<string>)
    ensures r.Some? ==> exists i | 0 <= i < |lines| ::
      p(lines[i]) && r.value == Strip(lines[i]) && forall j | i < j < |lines| :: !p(lines[j])
    ensures r.None? <==> forall j | 0 <= j < |lines| :: !p(lines[j])
  {
    LineAt(lines, FindLast(lines, p))
  }

  /** On a one-line text without surrounding whitespace, a search either finds the whole
      text or nothing. */
  lemma SearchOneLine(t: string, p: string -> bool)
    requires Strip(t) == t
    ensures FirstLine([t], p) == (if p(t) then Some(t) else None)
    ensures LastLine([t], p) == (if p(t) then Some(t) else None)
  {
    assert [t][1..] == [] && [t][..0] == [];
  }

  // ---------------------------------------------------------------------------------------
  // Keywords

  /** Some keyword of `keys` occurs in the lower-cased line. */
  predicate KeywordIn(line: string, keys: set<string>) {
    exists k | k in keys :: Contains(Lower(line), k)
  }

  /** `for k in order: if k in line.lower(): return k`: the first keyword of an enumeration
      that occurs in the lower-cased line. */
  function FirstKeyword(line: string, order: seq<string>): (r: Option<string>)
    ensures r.Some? ==> r.value in order && Contains(Lower(line), r.value)
    ensures r.None? ==> forall j | 0 <= j < |order| :: !Contains(Lower(line), order[j])
  {
    if order == [] then None
    else if Contains(Lower(line), order[0]) then Some(order[0])
    else FirstKeyword(line, order[1..])
  }

  /** Whatever order a set of keywords is iterated in, the loop finds a keyword exactly
      when one occurs: the line a keyword search returns does not depend on that order. */
  lemma {:induction false} IterationOrderIrrelevant(line: string, keys: set<string>, order: seq<string>)
    requires forall k :: k in keys <==> k in order
    ensures FirstKeyword(line, order).Some? <==> KeywordIn(line, keys)
  {
    var r := FirstKeyword(line, order);
    if r.Some? {
      assert r.value in keys;
    }
    if KeywordIn(line, keys) {
      var k :| k in keys && Contains(Lower(line), k);
      var j :| 0 <= j < |order| && order[j] == k;
      assert Contains(Lower(line), order[j]);
    }
  }

  predicate HasDegree(line: string) { KeywordIn(line, DegreeKeywords) }

  predicate HasInstitutionKeyword(line: string) { KeywordIn(line, InstitutionKeywords) }

  predicate HasAddressKeyword(line: string) {
    exists j | 0 <= j < |AddressKeywords| :: Contains(Lower(line), AddressKeywords[j])
  }

  // ---------------------------------------------------------------------------------------
  // Entities

  /** The texts of the entities whose label is one of `labels`, in document order. */
  function Labelled(ents: seq<Entity>, labels: set<string>): (r: seq<string>)
    ensures |r| <= |ents|
    ensures r == [] <==> forall i | 0 <= i < |ents| :: ents[i].kind !in labels
  {
    if ents == [] then []
    else if ents[0].kind in labels then [ents[0].text] + Labelled(ents[1..], labels)
    else
      var rest := Labelled(ents[1..], labels);
      assert forall i | 1 <= i < |ents| :: ents[i] == ents[1..][i - 1];
      rest
  }

  /** The texts of the `PERSON` entities. */
  function Persons(ents: seq<Entity>): seq<string> { Labelled(ents, {"PERSON"}) }

  /** The texts of the `GPE` and `LOC` entities. */
  function Locations(ents: seq<Entity>): seq<string> { Labelled(ents, {"GPE", "LOC"}) }

  /** The texts of the `ORG` entities. */
  function Organizations(ents: seq<Entity>): seq<string> { Labelled(ents, {"ORG"}) }

  /** The first text of `Labelled` is that of the first entity with such a label. */
  lemma {:induction false} LabelledFirst(ents: seq<Entity>, labels: set<string>, i: nat)
    requires i < |ents| && ents[i].kind in labels
    requires forall j | 0 <= j < i :: ents[j].kind !in labels
    ensures Labelled(ents, labels) != [] && Labelled(ents, labels)[0] == ents[i].text
  {
    if i > 0 {
      LabelledFirst(ents[1..], labels, i - 1);
    }
  }

  /** The last text of `Labelled` is that of the last entity with such a label. */
  lemma {:induction false} LabelledLast(ents: seq<Entity>, labels: set<string>, i: nat)
    requires i < |ents| && ents[i].kind in labels
    requires forall j | i < j < |ents| :: ents[j].kind !in labels
    ensures Labelled(ents, labels) != []
    ensures Labelled(ents, labels)[|Labelled(ents, labels)| - 1] == ents[i].text
  {
    if i == 0 {
      var rest := Labelled(ents[1..], labels);
      assert rest == [] by {
        forall j | 0 <= j < |ents[1..]| ensures ents[1..][j].kind !in labels {
          assert ents[1..][j] == ents[j + 1];
        }
      }
    } else if ents[0].kind in labels {
      LabelledLast(ents[1..], labels, i - 1);
    } else {
      LabelledLast(ents[1..], labels, i - 1);
    }
  }

  // ---------------------------------------------------------------------------------------
  // Name

  /** `xs[:n]`. */
  function Take(xs: seq<string>, n: nat): (r: seq<string>)
    ensures |r| == if |xs| <= n then |xs| else n
    ensures forall k | 0 <= k < |r| :: r[k] == xs[k]
  {
    if |xs| <= n then xs else xs[..n]
  }

  /** A line that looks like a name: two to four words, each alphabetic once its dots are
      removed. */
  predicate NameLine(line: string) {
    var words := Words(Strip(line));
    2 <= |words| <= 4 && forall k | 0 <= k < |words| :: IsAlphaString(WithoutDots(words[k]))
  }

  /** The first `PERSON` entity, stripped; failing that, the first of the first five lines
      that looks like a name, stripped. */
  function ExtractName(ents: seq<Entity>, text: string): (r: Option<string>)
    ensures Persons(ents) == [] && r.Some? ==>
      exists k | 0 <= k < |Lines(text)| && k < 5 ::
        NameLine(Lines(text)[k]) && r.value == Strip(Lines(text)[k]) &&
        forall j | 0 <= j < k :: !NameLine(Lines(text)[j])
    ensures r.None? ==> (Persons(ents) == [] &&
      forall k | 0 <= k < |Lines(text)| && k < 5 :: !NameLine(Lines(text)[k]))
  {
    if Persons(ents) != [] then Some(Strip(Persons(ents)[0]))
    else FirstLine(Take(Lines(text), 5), NameLine)
  }

  /** The recogniser's first person wins over every line heuristic. */
  lemma NameFromFirstPerson(ents: seq<Entity>, text: string, i: nat)
    requires i < |ents| && ents[i].kind == "PERSON"
    requires forall j | 0 <= j < i :: ents[j].kind != "PERSON"
    ensures ExtractName(ents, text) == Some(Strip(ents[i].text))
  {
    LabelledFirst(ents, {"PERSON"}, i);
  }

  /** A name taken from the lines has the shape the heuristic asks for and no surrounding
      whitespace. */
  lemma NameFallbackShape(ents: seq<Entity>, text: string)
    requires Persons(ents) == [] && ExtractName(ents, text).Some?
    ensures 2 <= |Words(ExtractName(ents, text).value)| <= 4
    ensures var n := ExtractName(ents, text).value; !IsSpace(n[0]) && !IsSpace(n[|n| - 1])
  {
    var n := ExtractName(ents, text).value;
    var lines := Lines(text);
    var k :| 0 <= k < |lines| && k < 5 && NameLine(lines[k]) && n == Strip(lines[k]);
    assert Words(n) != [];
  }

  // ---------------------------------------------------------------------------------------
  // Email

  /** The first match of the email pattern. */
  function ExtractEmail(text: string, spans: seq<Span>): (r: Option<string>)
    requires SpansMatch(text, spans, EmailPattern)
    ensures r.None? <==> spans == []
    ensures r.Some? ==> r.value == text[spans[0].lo..spans[0].hi]
    ensures r.Some? ==> Matches(EmailPattern, r.value) && OccursAt(text, r.value, spans[0].lo)
    ensures r.Some? ==> forall k | 0 <= k < |spans| :: spans[0].lo <= spans[k].lo
  {
    if spans == [] then None
    else
      SpansOrdered(spans);
      Some(Findall(text, spans)[0])
  }

  lemma {:induction false} SpansOrdered(spans: seq<Span>)
    requires forall k | 0 <= k < |spans| :: spans[k].lo <= spans[k].hi
    requires forall k | 0 <= k < |spans| - 1 :: spans[k].hi <= spans[k + 1].lo
    ensures forall k | 0 <= k < |spans| :: spans[0].lo <= spans[k].lo
  {
    if |spans| > 1 {
      SpansOrdered(spans[1..]);
      assert forall k | 1 <= k < |spans| :: spans[k] == spans[1..][k - 1];
    }
  }

  /** A found email address holds exactly one `@`. */
  lemma EmailHasOneAtSign(text: string, spans: seq<Span>)
    requires SpansMatch(text, spans, EmailPattern) && ExtractEmail(text, spans).Some?
    ensures multiset(ExtractEmail(text, spans).value)['@'] == 1
  {
    EmailHasOneAt(ExtractEmail(text, spans).value);
  }

  /** A text without `@` yields no email address. */
  lemma EmailNeedsAtSign(text: string, spans: seq<Span>)
    requires SpansMatch(text, spans, EmailPattern)
    requires forall i | 0 <= i < |text| :: text[i] != '@'
    ensures ExtractEmail(text, spans) == None
  {
    if spans != [] {
      EmailHasOneAt(ExtractEmail(text, spans).value);
      assert false;
    }
  }

  // ---------------------------------------------------------------------------------------
  // Contact number

  /** A match counts as a phone number when it holds seven to fifteen digits and plus signs. */
  predicate Plausible(m: string) { 7 <= |DialChars(m)| <= 15 }

  /** The first plausible match of one pattern, stripped. */
  function FirstPlausible(matches: seq<string>): (r: Option<string>)
    ensures r.Some? ==> exists k | 0 <= k < |matches| ::
      Plausible(matches[k]) && r.value == Strip(matches[k]) && forall j | 0 <= j < k :: !Plausible(matches[j])
    ensures r.None? <==> forall k | 0 <= k < |matches| :: !Plausible(matches[k])
  {
    FirstLine(matches, Plausible)
  }

  /** The matches of the three phone patterns, in the order they are tried: international,
      US, then a plain run of ten to fifteen digits. */
  function PhoneMatches(text: string, international: seq<Span>, us: seq<Span>): (r: seq<seq<string>>)
    requires SpansMatch(text, international, PhonePattern(International)) && SpansMatch(text, us, PhonePattern(UsFormat))
    ensures |r| == 3
    ensures |r[0]| == |international| && |r[1]| == |us| && |r[2]| == |DigitRunSpans(text, 0)|
    ensures forall k | 0 <= k < |international| :: r[0][k] == text[international[k].lo..international[k].hi]
    ensures forall k | 0 <= k < |us| :: r[1][k] == text[us[k].lo..us[k].hi]
    ensures forall k | 0 <= k < |r[2]| :: Matches(PhonePattern(PlainDigits), r[2][k])
  {
    [Findall(text, international), Findall(text, us), PlainDigitMatches(text)]
  }

  /** `re.findall(r'\d{10,15}', text)`. */
  function PlainDigitMatches(text: string): (r: seq<string>)
    ensures |r| == |DigitRunSpans(text, 0)|
    ensures forall k | 0 <= k < |r| :: Matches(PhonePattern(PlainDigits), r[k])
  {
    DigitRunSpansMatch(text, 0);
    Findall(text, DigitRunSpans(text, 0))
  }

  /** `ms[p][k]` is plausible and no match tried before it is: every match of an earlier
      pattern and every earlier match of the same pattern fails the digit count. */
  predicate FirstPlausibleAt(ms: seq<seq<string>>, p: nat, k: nat)
    requires p < |ms| && k < |ms[p]|
  {
    && Plausible(ms[p][k])
    && (forall j | 0 <= j < k :: !Plausible(ms[p][j]))
    && (forall q, j | 0 <= q < p && 0 <= j < |ms[q]| :: !Plausible(ms[q][j]))
  }

  /** `for pattern in phone_patterns: ...`: the first plausible match of the first list of
      matches that has one. */
  function FirstPlausibleOf(ms: seq<seq<string>>): (r: Option<string>)
    ensures r.None? <==> forall p, k | 0 <= p < |ms| && 0 <= k < |ms[p]| :: !Plausible(ms[p][k])
    ensures r.Some? ==>
      exists p, k | 0 <= p < |ms| && 0 <= k < |ms[p]| :: FirstPlausibleAt(ms, p, k) && r.value == Strip(ms[p][k])
  {
    if ms == [] then None
    else match FirstPlausible(ms[0])
      case Some(m) =>
        var k :| 0 <= k < |ms[0]| && Plausible(ms[0][k]) && m == Strip(ms[0][k]) &&
          forall j | 0 <= j < k :: !Plausible(ms[0][j]);
        assert FirstPlausibleAt(ms, 0, k);
        Some(m)
      case None =>
        var r := FirstPlausibleOf(ms[1..]);
        FirstPlausibleOfRest(ms, r);
        r
  }

  lemma FirstPlausibleOfRest(ms: seq<seq<string>>, r: Option<string>)
    requires ms != [] && forall k | 0 <= k < |ms[0]| :: !Plausible(ms[0][k])
    requires r.None? <==> forall p, k | 0 <= p < |ms[1..]| && 0 <= k < |ms[1..][p]| :: !Plausible(ms[1..][p][k])
    requires r.Some? ==> exists p, k | 0 <= p < |ms[1..]| && 0 <= k < |ms[1..][p]| ::
      FirstPlausibleAt(ms[1..], p, k) && r.value == Strip(ms[1..][p][k])
    ensures r.None? <==> forall p, k | 0 <= p < |ms| && 0 <= k < |ms[p]| :: !Plausible(ms[p][k])
    ensures r.Some? ==>
      exists p, k | 0 <= p < |ms| && 0 <= k < |ms[p]| :: FirstPlausibleAt(ms, p, k) && r.value == Strip(ms[p][k])
  {
    if r.Some? {
      var p, k :| 0 <= p < |ms[1..]| && 0 <= k < |ms[1..][p]| &&
        FirstPlausibleAt(ms[1..], p, k) && r.value == Strip(ms[1..][p][k]);
      FirstPlausibleAtShift(ms, p, k);
    } else {
      NonePlausibleShift(ms);
    }
  }

  lemma FirstPlausibleAtShift(ms: seq<seq<string>>, p: nat, k: nat)
    requires ms != [] && forall j | 0 <= j < |ms[0]| :: !Plausible(ms[0][j])
    requires p < |ms[1..]| && k < |ms[1..][p]| && FirstPlausibleAt(ms[1..], p, k)
    ensures p + 1 < |ms| && k < |ms[p + 1]| && FirstPlausibleAt(ms, p + 1, k) && ms[p + 1][k] == ms[1..][p][k]
  {
    forall q, j | 0 <= q < p + 1 && 0 <= j < |ms[q]| ensures !Plausible(ms[q][j]) {
      if q > 0 {
        assert ms[q] == ms[1..][q - 1];
      }
    }
  }

  lemma NonePlausibleShift(ms: seq<seq<string>>)
    requires ms != [] && forall j | 0 <= j < |ms[0]| :: !Plausible(ms[0][j])
    requires forall p, k | 0 <= p < |ms[1..]| && 0 <= k < |ms[1..][p]| :: !Plausible(ms[1..][p][k])
    ensures forall p, k | 0 <= p < |ms| && 0 <= k < |ms[p]| :: !Plausible(ms[p][k])
  {
    forall p, k | 0 <= p < |ms| && 0 <= k < |ms[p]| ensures !Plausible(ms[p][k]) {
      if p > 0 {
        assert ms[p] == ms[1..][p - 1];
      }
    }
  }

  /** The first plausible match of the first pattern that has one. */
  function ExtractContact(text: string, international: seq<Span>, us: seq<Span>): (r: Option<string>)
    requires SpansMatch(text, international, PhonePattern(International)) && SpansMatch(text, us, PhonePattern(UsFormat))
    ensures r.None? <==> forall p, k | 0 <= p < 3 && 0 <= k < |PhoneMatches(text, international, us)[p]| ::
      !Plausible(PhoneMatches(text, international, us)[p][k])
    ensures r.Some? ==> var ms := PhoneMatches(text, international, us);
      exists p, k | 0 <= p < 3 && 0 <= k < |ms[p]| :: FirstPlausibleAt(ms, p, k) && r.value == Strip(ms[p][k])
  {
    FirstPlausibleOf(PhoneMatches(text, international, us))
  }

  /** The patterns are tried in a fixed order: a plausible match of an earlier pattern wins
      over every match of a later one. */
  lemma ContactPatternOrder(text: string, international: seq<Span>, us: seq<Span>)
    requires SpansMatch(text, international, PhonePattern(International)) && SpansMatch(text, us, PhonePattern(UsFormat))
    ensures var ms := PhoneMatches(text, international, us);
      (exists k | 0 <= k < |ms[0]| :: Plausible(ms[0][k])) ==>
        ExtractContact(text, international, us) == FirstPlausible(ms[0])
    ensures var ms := PhoneMatches(text, international, us);
      (forall k | 0 <= k < |ms[0]| :: !Plausible(ms[0][k])) ==>
        ExtractContact(text, international, us) ==
          (if FirstPlausible(ms[1]).Some? then FirstPlausible(ms[1]) else FirstPlausible(ms[2]))
  {
    FirstPlausibleOfThree(PhoneMatches(text, international, us));
  }

  /** Over three pattern lists, the search tries each list's first plausible match in turn. */
  lemma FirstPlausibleOfThree(ms: seq<seq<string>>)
    requires |ms| == 3
    ensures FirstPlausibleOf(ms) ==
      if FirstPlausible(ms[0]).Some? then FirstPlausible(ms[0])
      else if FirstPlausible(ms[1]).Some? then FirstPlausible(ms[1])
      else FirstPlausible(ms[2])
  {
    assert ms[1..][0] == ms[1] && ms[1..][1..][0] == ms[2] && ms[1..][1..][1..] == [];
  }

  /** The stripping in the source changes nothing: every phone match already starts and
      ends with a non-blank character, so what is returned is a plausible match verbatim. */
  lemma PlausibleMatchVerbatim(text: string, spans: seq<Span>, kind: Phone, r: string)
    requires SpansMatch(text, spans, PhonePattern(kind)) && FirstPlausible(Findall(text, spans)) == Some(r)
    ensures Matches(PhonePattern(kind), r) && Plausible(r) && Contains(text, r)
  {
    var ms := Findall(text, spans);
    var k :| 0 <= k < |ms| && Plausible(ms[k]) && r == Strip(ms[k]);
    MatchVerbatim(text, spans, kind, k);
  }

  /** The `k`-th match of a phone pattern is left as it is by `strip()` and occurs in the text. */
  lemma MatchVerbatim(text: string, spans: seq<Span>, kind: Phone, k: nat)
    requires SpansMatch(text, spans, PhonePattern(kind)) && k < |spans|
    ensures var m := Findall(text, spans)[k];
      Strip(m) == m && Matches(PhonePattern(kind), m) && Contains(text, m)
  {
    var m := text[spans[k].lo..spans[k].hi];
    assert Findall(text, spans)[k] == m;
    PhoneMatchEdges(kind, m);
    StripUnchanged(m);
    SliceOccurs(text, spans[k].lo, spans[k].hi);
  }

  /** The contact number is, verbatim, a match of one of the phone patterns that holds seven
      to fifteen digits and plus signs, and it occurs in the text. */
  lemma ContactIsMatch(text: string, international: seq<Span>, us: seq<Span>)
    requires SpansMatch(text, international, PhonePattern(International)) && SpansMatch(text, us, PhonePattern(UsFormat))
    requires ExtractContact(text, international, us).Some?
    ensures var r := ExtractContact(text, international, us).value;
      && (exists kind :: Matches(PhonePattern(kind), r))
      && Plausible(r) && Contains(text, r)
  {
    var ms := PhoneMatches(text, international, us);
    var r := ExtractContact(text, international, us).value;
    var p, k :| 0 <= p < 3 && 0 <= k < |ms[p]| && FirstPlausibleAt(ms, p, k) && r == Strip(ms[p][k]);
    if p == 0 {
      MatchVerbatim(text, international, International, k);
      assert Matches(PhonePattern(International), r);
    } else if p == 1 {
      MatchVerbatim(text, us, UsFormat, k);
      assert Matches(PhonePattern(UsFormat), r);
    } else {
      DigitRunSpansSound(text, 0);
      DigitRunSpansMatch(text, 0);
      MatchVerbatim(text, DigitRunSpans(text, 0), PlainDigits, k);
      assert Matches(PhonePattern(PlainDigits), r);
    }
  }

  lemma PlainDigitsVerbatim(text: string, r: string)
    requires FirstPlausible(PlainDigitMatches(text)) == Some(r)
    ensures Matches(PhonePattern(PlainDigits), r) && Plausible(r) && Contains(text, r)
  {
    DigitRunSpansMatch(text, 0);
    PlausibleMatchVerbatim(text, DigitRunSpans(text, 0), PlainDigits, r);
  }

  /** Ten consecutive digits anywhere in the text guarantee a contact number: the plain
      digit pattern matches around them. */
  lemma ContactFromTenDigits(text: string, international: seq<Span>, us: seq<Span>, p: nat)
    requires SpansMatch(text, international, PhonePattern(International)) && SpansMatch(text, us, PhonePattern(UsFormat))
    requires TenDigitsAt(text, p)
    ensures ExtractContact(text, international, us).Some?
  {
    var ms := PhoneMatches(text, international, us);
    TenDigitsPlausible(text, p);
    assert ms[2] == PlainDigitMatches(text);
    var k :| 0 <= k < |ms[2]| && Plausible(ms[2][k]);
  }

  /** Ten consecutive digits lie inside a plausible match of the plain digit pattern. */
  lemma TenDigitsPlausible(text: string, p: nat)
    requires TenDigitsAt(text, p)
    ensures FirstPlausible(PlainDigitMatches(text)).Some?
  {
    var ms := PlainDigitMatches(text);
    var runs := DigitRunSpans(text, 0);
    DigitRunSpansSound(text, 0);
    DigitRunSpansCover(text, 0, p);
    var k :| 0 <= k < |runs| && runs[k].lo <= p < runs[k].hi;
    assert ScannedRun(text, 0, runs[k]);
    RunPlausible(text, runs[k]);
    assert Plausible(ms[k]);
  }

  /** A run of ten to fifteen digits is a plausible phone number. */
  lemma RunPlausible(text: string, sp: Span)
    requires DigitRun(text, sp)
    ensures Plausible(text[sp.lo..sp.hi])
  {
    AllDialChars(text[sp.lo..sp.hi]);
  }

  lemma {:induction false} AllDialChars(s: string)
    requires forall i | 0 <= i < |s| :: IsDigit(s[i])
    ensures DialChars(s) == s
  {
    if s != [] {
      AllDialChars(s[1..]);
      assert [s[0]] + s[1..] == s;
    }
  }

  /** A text without digits holds no match of a phone pattern: every such match holds a
      digit. */
  lemma NoPhoneMatchWithoutDigits(text: string, spans: seq<Span>, kind: Phone)
    requires SpansMatch(text, spans, PhonePattern(kind))
    requires forall i | 0 <= i < |text| :: !IsDigit(text[i])
    ensures spans == []
  {
    if spans != [] {
      PhoneMatchHasDigit(kind, text[spans[0].lo..spans[0].hi]);
      assert false;
    }
  }

  /** A text without digits yields no contact number. */
  lemma ContactNeedsDigits(text: string, international: seq<Span>, us: seq<Span>)
    requires SpansMatch(text, international, PhonePattern(International)) && SpansMatch(text, us, PhonePattern(UsFormat))
    requires forall i | 0 <= i < |text| :: !IsDigit(text[i])
    ensures ExtractContact(text, international, us) == None
  {
    DigitRunSpansSound(text, 0);
    DigitRunSpansMatch(text, 0);
    NoPhoneMatchWithoutDigits(text, international, International);
    NoPhoneMatchWithoutDigits(text, us, UsFormat);
    NoPhoneMatchWithoutDigits(text, DigitRunSpans(text, 0), PlainDigits);
  }

  // ---------------------------------------------------------------------------------------
  // Address

  /** Some location name occurs in the line, both lower-cased. */
  predicate MentionsAny(line: string, locations: seq<string>) {
    exists j | 0 <= j < |locations| :: Contains(Lower(line), Lower(locations[j]))
  }

  /** The first line that mentions a `GPE` or `LOC` entity; failing that, the first line
      holding an address keyword; stripped. */
  function ExtractAddress(ents: seq<Entity>, text: string): (r: Option<string>)
    ensures r.Some? ==> exists i | 0 <= i < |Lines(text)| ::
      r.value == Strip(Lines(text)[i]) &&
      (MentionsAny(Lines(text)[i], Locations(ents)) || HasAddressKeyword(Lines(text)[i]))
    ensures (exists i | 0 <= i < |Lines(text)| :: MentionsAny(Lines(text)[i], Locations(ents))) ==>
      exists i | 0 <= i < |Lines(text)| ::
        MentionsAny(Lines(text)[i], Locations(ents)) && r == Some(Strip(Lines(text)[i])) &&
        forall j | 0 <= j < i :: !MentionsAny(Lines(text)[j], Locations(ents))
    ensures (forall i | 0 <= i < |Lines(text)| :: !MentionsAny(Lines(text)[i], Locations(ents))) && r.Some? ==>
      exists i | 0 <= i < |Lines(text)| ::
        HasAddressKeyword(Lines(text)[i]) && r.value == Strip(Lines(text)[i]) &&
        forall j | 0 <= j < i :: !HasAddressKeyword(Lines(text)[j])
    ensures r.None? <==> forall i | 0 <= i < |Lines(text)| ::
      !MentionsAny(Lines(text)[i], Locations(ents)) && !HasAddressKeyword(Lines(text)[i])
  {
    match FirstLine(Lines(text), line => MentionsAny(line, Locations(ents)))
    case Some(line) => Some(line)
    case None => FirstLine(Lines(text), HasAddressKeyword)
  }

  /** A line mentioning a location wins over every line holding only a keyword. */
  lemma AddressPrefersLocations(ents: seq<Entity>, text: string, i: nat)
    requires i < |Lines(text)| && MentionsAny(Lines(text)[i], Locations(ents))
    ensures exists j | 0 <= j <= i ::
      (ExtractAddress(ents, text) == Some(Strip(Lines(text)[j])) &&
       MentionsAny(Lines(text)[j], Locations(ents)))
  {
    var mentions := line => MentionsAny(line, Locations(ents));
    assert mentions(Lines(text)[i]);
    var j :| 0 <= j < |Lines(text)| && mentions(Lines(text)[j]) &&
      FirstLine(Lines(text), mentions).value == Strip(Lines(text)[j]) &&
      forall k | 0 <= k < j :: !mentions(Lines(text)[k]);
    assert j <= i;
  }

  // ---------------------------------------------------------------------------------------
  // Qualification and institution

  /** The last line holding a degree keyword, stripped. */
  function ExtractQualification(text: string): (r: Option<string>)
    ensures r.Some? ==> exists i | 0 <= i < |Lines(text)| ::
      HasDegree(Lines(text)[i]) && r.value == Strip(Lines(text)[i]) &&
      forall j | i < j < |Lines(text)| :: !HasDegree(Lines(text)[j])
    ensures r.None? <==> forall i | 0 <= i < |Lines(text)| :: !HasDegree(Lines(text)[i])
  {
    LastLine(Lines(text), HasDegree)
  }

  /** The last line satisfying `p`, stripped; failing that, `fallback`. */
  function LastLineOr(lines: seq<string>, p: string -> bool, fallback: Option<string>): (r: Option<string>)
    ensures (exists i | 0 <= i < |lines| :: p(lines[i])) ==>
      exists i | 0 <= i < |lines| ::
        p(lines[i]) && r == Some(Strip(lines[i])) && forall j | i < j < |lines| :: !p(lines[j])
    ensures (forall i | 0 <= i < |lines| :: !p(lines[i])) ==> r == fallback
    ensures r.None? <==> fallback.None? && forall i | 0 <= i < |lines| :: !p(lines[i])
  {
    match LastLine(lines, p)
    case Some(line) => Some(line)
    case None => fallback
  }

  /** The text of the last `ORG` entity, as the recogniser gave it. */
  function LastOrganization(ents: seq<Entity>): (r: Option<string>)
    ensures r.None? <==> Organizations(ents) == []
  {
    if Organizations(ents) != [] then Some(Organizations(ents)[|Organizations(ents)| - 1]) else None
  }

  /** The last line holding an institution keyword, stripped; failing that, the text of the
      last `ORG` entity as the recogniser gave it. */
  function ExtractInstitution(ents: seq<Entity>, text: string): (r: Option<string>)
    ensures (exists i | 0 <= i < |Lines(text)| :: HasInstitutionKeyword(Lines(text)[i])) ==>
      exists i | 0 <= i < |Lines(text)| ::
        HasInstitutionKeyword(Lines(text)[i]) && r == Some(Strip(Lines(text)[i])) &&
        forall j | i < j < |Lines(text)| :: !HasInstitutionKeyword(Lines(text)[j])
    ensures r.None? <==> (Organizations(ents) == [] &&
      forall i | 0 <= i < |Lines(text)| :: !HasInstitutionKeyword(Lines(text)[i]))
  {
    LastLineOr(Lines(text), HasInstitutionKeyword, LastOrganization(ents))
  }

  /** Without an institution keyword in any line, the last `ORG` entity is returned unstripped. */
  lemma InstitutionFromLastOrganization(ents: seq<Entity>, text: string, i: nat)
    requires forall j | 0 <= j < |Lines(text)| :: !HasInstitutionKeyword(Lines(text)[j])
    requires i < |ents| && ents[i].kind == "ORG"
    requires forall j | i < j < |ents| :: ents[j].kind != "ORG"
    ensures ExtractInstitution(ents, text) == Some(ents[i].text)
  {
    LabelledLast(ents, {"ORG"}, i);
  }

  // ---------------------------------------------------------------------------------------
  // The whole extractor

  /** Normalise the text, run the recogniser on it, and fill every field; `None` when the
      recogniser raises. */
  function ExtractData(engine: Engine, raw: string): (r: Option<ExtractedData>)
    requires Sound(engine)
    ensures r.None? <==> engine.ner(Normalize(raw)).None?
    ensures r.Some? ==> r.value.email.Some? ==> Contains(Normalize(raw), r.value.email.value)
    ensures r.Some? ==> r.value.contactNumber.Some? ==> Contains(Normalize(raw), r.value.contactNumber.value)
  {
    var text := Normalize(raw);
    match engine.ner(text)
    case None => None
    case Some(ents) =>
      var email := ExtractEmail(text, engine.email(text));
      var contact := ExtractContact(text, engine.international(text), engine.us(text));
      ContactContained(text, engine.international(text), engine.us(text));
      Some(Assemble(ents, text, email, contact))
  }

  /** The record of the six fields: the four read off the entities and the lines, with the
      email address and contact number found by the patterns. */
  function Assemble(ents: seq<Entity>, text: string, email: Option<string>, contact: Option<string>): ExtractedData {
    ExtractedData(
      name := ExtractName(ents, text),
      address := ExtractAddress(ents, text),
      email := email,
      contactNumber := contact,
      lastQualification := ExtractQualification(text),
      lastInstitution := ExtractInstitution(ents, text))
  }

  lemma ContactContained(text: string, international: seq<Span>, us: seq<Span>)
    requires SpansMatch(text, international, PhonePattern(International)) && SpansMatch(text, us, PhonePattern(UsFormat))
    ensures ExtractContact(text, international, us).Some? ==>
      Contains(text, ExtractContact(text, international, us).value)
  {
    if ExtractContact(text, international, us).Some? {
      ContactIsMatch(text, international, us);
    }
  }

  /** Normalisation turns the whole resume into one line, so every line heuristic sees the
      whole text: the address, the qualification and a name taken from the lines are the
      whole normalised text or nothing, and so is the institution whenever the text holds an
      institution keyword. */
  lemma LineFieldsAreWholeText(engine: Engine, raw: string)
    requires Sound(engine) && ExtractData(engine, raw).Some?
    ensures var d, t := ExtractData(engine, raw).value, Normalize(raw);
      && d.address in {None, Some(t)}
      && d.lastQualification == (if HasDegree(t) then Some(t) else None)
      && (HasInstitutionKeyword(t) ==> d.lastInstitution == Some(t))
      && (Persons(engine.ner(t).value) == [] ==>
            d.name == (if NameLine(t) then Some(t) else None))
  {
    var t := Normalize(raw);
    var d := ExtractData(engine, raw).value;
    assert d == Assemble(engine.ner(t).value, t, d.email, d.contactNumber);
    NormalizedIsOneLine(raw);
    StripUnchanged(t);
    OneLineFields(engine.ner(t).value, t);
  }

  lemma OneLineFields(ents: seq<Entity>, t: string)
    requires Lines(t) == [t] && Strip(t) == t
    ensures ExtractAddress(ents, t) in {None, Some(t)}
    ensures ExtractQualification(t) == (if HasDegree(t) then Some(t) else None)
    ensures HasInstitutionKeyword(t) ==> ExtractInstitution(ents, t) == Some(t)
    ensures Persons(ents) == [] ==> ExtractName(ents, t) == (if NameLine(t) then Some(t) else None)
  {
    AddressOneLine(ents, t);
    SearchOneLine(t, HasDegree);
    SearchOneLine(t, HasInstitutionKeyword);
    NameOneLine(ents, t);
  }

  lemma AddressOneLine(ents: seq<Entity>, t: string)
    requires Lines(t) == [t] && Strip(t) == t
    ensures ExtractAddress(ents, t) in {None, Some(t)}
  {
    SearchOneLine(t, HasAddressKeyword);
    SearchOneLine(t, line => MentionsAny(line, Locations(ents)));
  }

  lemma NameOneLine(ents: seq<Entity>, t: string)
    requires Lines(t) == [t] && Strip(t) == t
    ensures Persons(ents) == [] ==> ExtractName(ents, t) == (if NameLine(t) then Some(t) else None)
  {
    SearchOneLine(t, NameLine);
    assert Take([t], 5) == [t];
  }
}
