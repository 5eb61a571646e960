/**
 * The fact extractor of the call-for-papers page: five patterns and a marker are
 * searched for, in a fixed order, in the rendered hard-facts HTML, and each
 * one found contributes a labelled fact to the facts list.
 */
module FactExtractor {
  import opened Wrappers
  import opened Text

  /** The six fact categories, in display order. */
  datatype Category = Format | AbstractLength | Deadline | Languages | Participants | Fee

  /** The label the page shows for a category. */
  function Caption(c: Category): string
  {
    match c
    case Format => "Format"
    case AbstractLength => "Abstract"
    case Deadline => "Deadline"
    case Languages => "Sprachen"
    case Participants => "Teilnehmer"
    case Fee => "Gebühr"
  }

  /** The position of a category in the display order. */
  function Rank(c: Category): nat
  {
    match c
    case Format => 0
    case AbstractLength => 1
    case Deadline => 2
    case Languages => 3
    case Participants => 4
    case Fee => 5
  }

  lemma CaptionsDistinct(c: Category, d: Category)
    ensures Caption(c) == Caption(d) <==> c == d
  {
  }

  /** One entry of the facts list: its category (whose caption is the label) and its value. */
  datatype Fact = Fact(category: Category, value: string)

  /** A character class of the patterns: `[^x]` or `\d` (ASCII digits, as in JavaScript). */
  datatype CharClass = Except(excluded: char) | Digit

  predicate InClass(c: char, cls: CharClass)
  {
    match cls
    case Except(x) => c != x
    case Digit => '0' <= c <= '9'
  }

  /** The regular expression `prefix(C+)suffix`: a literal, a capture of one or more `C` characters, a literal. */
  datatype Pattern = Pattern(prefix: string, capture: CharClass, suffix: string)

  /**
   * The suffix starts with a character the capture cannot take, so the capture
   * can only end where its run of class characters ends.
   */
  predicate Unambiguous(pat: Pattern)
  {
    |pat.suffix| > 0 && !InClass(pat.suffix[0], pat.capture)
  }

  const FormatPattern := Pattern("<strong>Vorträge von ", Except('<'), "</strong>")
  const AbstractPattern := Pattern("<strong>Abstracts sollten ", Except('<'), "</strong>")
  const DeadlinePattern := Pattern("<strong>Einreichungsfrist ist der ", Except('<'), "</strong>")
  const LanguagesPattern := Pattern("Konferenzsprachen sind ", Except('.'), ".")
  const ParticipantsPattern := Pattern("auf ", Digit, " Personen begrenzt")
  const FeeMarker := "keine Tagungsgebühr"

  const FormatLead := "Vorträge, "
  const ParticipantsLead := "max. "
  const ParticipantsTail := " Personen"

  /**
   * What the regular expression means: `pat` matches `s` at index `start`,
   * its capture taking `m` characters.
   */
  ghost predicate MatchesAt(s: string, pat: Pattern, start: nat, m: nat)
  {
    var k := start + |pat.prefix|;
    0 < m
    && OccursAt(s, pat.prefix, start)
    && OccursAt(s, pat.suffix, k + m)
    && forall j :: k <= j < k + m ==> InClass(s[j], pat.capture)
  }

  /** `pat` matches somewhere in `s`. */
  ghost predicate Matches(s: string, pat: Pattern)
  {
    exists start: nat, m: nat :: MatchesAt(s, pat, start, m)
  }

  /** `v` is what `s.match(pat)[1]` yields: the capture of the match that starts leftmost. */
  ghost predicate IsLeftmostCapture(s: string, pat: Pattern, v: string)
  {
    exists start: nat :: CapturesAt(s, pat, start, v) && NoMatchBefore(s, pat, start)
  }

  /** `pat` matches at `start` and captures `v` there. */
  ghost predicate CapturesAt(s: string, pat: Pattern, start: nat, v: string)
  {
    MatchesAt(s, pat, start, |v|) && v == s[start + |pat.prefix|..start + |pat.prefix| + |v|]
  }

  /** `pat` matches nowhere before `start`. */
  ghost predicate NoMatchBefore(s: string, pat: Pattern, start: nat)
  {
    forall q: nat, m: nat :: q < start ==> !MatchesAt(s, pat, q, m)
  }

  /** The length of the longest run of `cls` characters in `s` from index `k` on. */
  function RunLength(s: string, k: nat, cls: CharClass): (n: nat)
    requires k <= |s|
    decreases |s| - k
    ensures k + n <= |s|
    ensures forall j :: k <= j < k + n ==> InClass(s[j], cls)
    ensures k + n == |s| || !InClass(s[k + n], cls)
  {
    if k < |s| && InClass(s[k], cls) then 1 + RunLength(s, k + 1, cls) else 0
  }

  /** A match at `start` can only capture the whole run of class characters after the prefix. */
  lemma MatchIsWholeRun(s: string, pat: Pattern, start: nat, m: nat)
    requires Unambiguous(pat) && MatchesAt(s, pat, start, m)
    ensures m == RunLength(s, start + |pat.prefix|, pat.capture)
  {
  }

  /** Every match at `start` captures exactly the whole run. */
  lemma OnlyWholeRunMatches(s: string, pat: Pattern, start: nat)
    requires Unambiguous(pat)
    ensures forall m: nat :: MatchesAt(s, pat, start, m) ==> m == RunLength(s, start + |pat.prefix|, pat.capture)
  {
    forall m: nat | MatchesAt(s, pat, start, m) ensures m == RunLength(s, start + |pat.prefix|, pat.capture) {
      MatchIsWholeRun(s, pat, start, m);
    }
  }

  /**
   * The capture of `pat` at `start`, greedy as the regular expression's `+`,
   * or None when `pat` does not match there. Because the pattern is
   * unambiguous, this is the only capture length that matches.
   */
  function CaptureAt(s: string, pat: Pattern, start: nat): (r: Option<string>)
    requires Unambiguous(pat)
    ensures forall m: nat :: MatchesAt(s, pat, start, m) <==> (r.Some? && m == |r.value|)
    ensures r.Some? ==>
      MatchesAt(s, pat, start, |r.value|) && r.value == s[start + |pat.prefix|..start + |pat.prefix| + |r.value|]
  {
    if !OccursAt(s, pat.prefix, start) then None
    else
      var k := start + |pat.prefix|;
      var n := RunLength(s, k, pat.capture);
      OnlyWholeRunMatches(s, pat, start);
      if 0 < n && OccursAt(s, pat.suffix, k + n) then
        assert MatchesAt(s, pat, start, n);
        Some(s[k..k + n])
      else
        assert !MatchesAt(s, pat, start, n);
        None
  }

  /** A match of `pat`: where it starts and what it captures. */
  datatype Match = Match(start: nat, capture: string)

  /** The leftmost match of `pat` in `s` that starts at `from` or later. */
  function SearchFrom(s: string, pat: Pattern, from: nat): (r: Option<Match>)
    requires Unambiguous(pat)
    decreases |s| + 1 - from
    ensures r.Some? ==>
      && from <= r.value.start
      && MatchesAt(s, pat, r.value.start, |r.value.capture|)
      && r.value.capture == s[r.value.start + |pat.prefix|..r.value.start + |pat.prefix| + |r.value.capture|]
    ensures forall q: nat, m: nat :: from <= q && (r.None? || q < r.value.start) ==> !MatchesAt(s, pat, q, m)
  {
    if from > |s| then None
    else match CaptureAt(s, pat, from)
      case Some(v) => Some(Match(from, v))
      case None => SearchFrom(s, pat, from + 1)
  }

  /** `s.match(pat)`: its capture group, or None when there is no match. */
  function FirstCapture(s: string, pat: Pattern): (r: Option<string>)
    requires Unambiguous(pat)
    ensures r.Some? <==> Matches(s, pat)
    ensures r.Some? ==> IsLeftmostCapture(s, pat, r.value)
  {
    match SearchFrom(s, pat, 0)
    case Some(found) =>
      assert CapturesAt(s, pat, found.start, found.capture) && NoMatchBefore(s, pat, found.start);
      Some(found.capture)
    case None => None
  }

  /** The fact of category `c` with the capture wrapped in `lead` and `tail`, if there is a capture. */
  function OptionalFact(c: Category, capture: Option<string>, lead: string, tail: string): (facts: seq<Fact>)
    ensures |facts| <= 1 && RanksWithin(facts, Rank(c), Rank(c) + 1)
    ensures facts != [] <==> capture.Some?
  {
    match capture
    case Some(v) => [Fact(c, lead + v + tail)]
    case None => []
  }

  /** The categories of `facts` appear in display order, none twice. */
  predicate InDisplayOrder(facts: seq<Fact>)
  {
    forall i, j :: 0 <= i < j < |facts| ==> Rank(facts[i].category) < Rank(facts[j].category)
  }

  /** Every category of `facts` ranks at least `lo` and below `hi`. */
  predicate RanksWithin(facts: seq<Fact>, lo: nat, hi: nat)
  {
    forall i :: 0 <= i < |facts| ==> lo <= Rank(facts[i].category) < hi
  }

  /** Two ordered lists whose ranks lie in consecutive ranges concatenate to an ordered list. */
  lemma ConcatInDisplayOrder(a: seq<Fact>, b: seq<Fact>, lo: nat, mid: nat, hi: nat)
    requires lo <= mid <= hi
    requires InDisplayOrder(a) && RanksWithin(a, lo, mid)
    requires InDisplayOrder(b) && RanksWithin(b, mid, hi)
    ensures InDisplayOrder(a + b) && RanksWithin(a + b, lo, hi)
  {
    var ab := a + b;
    forall i | 0 <= i < |ab|
      ensures lo <= Rank(ab[i].category) < hi
      ensures i < |a| ==> Rank(ab[i].category) < mid
      ensures i >= |a| ==> mid <= Rank(ab[i].category)
    {
      if i < |a| { assert ab[i] == a[i]; } else { assert ab[i] == b[i - |a|]; }
    }
    forall i, j | 0 <= i < j < |ab|
      ensures Rank(ab[i].category) < Rank(ab[j].category)
    {
      if j < |a| {
        assert ab[i] == a[i] && ab[j] == a[j];
      } else if |a| <= i {
        assert ab[i] == b[i - |a|] && ab[j] == b[j - |a|];
      }
    }
  }

  /** Six lists of at most one fact each, of ranks 0 to 5 in turn, concatenate to an ordered list. */
  lemma SixInDisplayOrder(f0: seq<Fact>, f1: seq<Fact>, f2: seq<Fact>, f3: seq<Fact>, f4: seq<Fact>, f5: seq<Fact>)
    requires |f0| <= 1 && RanksWithin(f0, 0, 1) && |f1| <= 1 && RanksWithin(f1, 1, 2)
    requires |f2| <= 1 && RanksWithin(f2, 2, 3) && |f3| <= 1 && RanksWithin(f3, 3, 4)
    requires |f4| <= 1 && RanksWithin(f4, 4, 5) && |f5| <= 1 && RanksWithin(f5, 5, 6)
    ensures InDisplayOrder(f0 + f1 + f2 + f3 + f4 + f5) && RanksWithin(f0 + f1 + f2 + f3 + f4 + f5, 0, 6)
  {
    ConcatInDisplayOrder(f0, f1, 0, 1, 2);
    ConcatInDisplayOrder(f0 + f1, f2, 0, 2, 3);
    ConcatInDisplayOrder(f0 + f1 + f2, f3, 0, 3, 4);
    ConcatInDisplayOrder(f0 + f1 + f2 + f3, f4, 0, 4, 5);
    ConcatInDisplayOrder(f0 + f1 + f2 + f3 + f4, f5, 0, 5, 6);
  }

  /**
   * The facts list built from what the five pattern searches and the fee
   * test found, in the order the page script pushes them: one fact per
   * capture found, and the fee fact when the fee marker was found.
   */
  function AssembleFacts(format: Option<string>, abstractLength: Option<string>, deadline: Option<string>,
                         languages: Option<string>, participants: Option<string>, noFee: bool): (facts: seq<Fact>)
    ensures InDisplayOrder(facts)
    ensures facts == [] <==>
      format.None? && abstractLength.None? && deadline.None? && languages.None? && participants.None? && !noFee
  {
    var f0 := OptionalFact(Format, format, FormatLead, "");
    var f1 := OptionalFact(AbstractLength, abstractLength, "", "");
    var f2 := OptionalFact(Deadline, deadline, "", "");
    var f3 := OptionalFact(Languages, languages, "", "");
    var f4 := OptionalFact(Participants, participants, ParticipantsLead, ParticipantsTail);
    var f5 := if noFee then [Fact(Fee, "keine")] else [];
    SixInDisplayOrder(f0, f1, f2, f3, f4, f5);
    f0 + f1 + f2 + f3 + f4 + f5
  }

  /** The extraction half of `generateFactsHTML`. */
  function ExtractFacts(s: string): (facts: seq<Fact>)
    ensures InDisplayOrder(facts)
  {
    AssembleFacts(FirstCapture(s, FormatPattern), FirstCapture(s, AbstractPattern), FirstCapture(s, DeadlinePattern),
                  FirstCapture(s, LanguagesPattern), FirstCapture(s, ParticipantsPattern), Includes(s, FeeMarker))
  }

  /** The value of the first fact of category `c` in `facts`, if there is one. */
  function ValueOf(facts: seq<Fact>, c: Category): Option<string>
    decreases |facts|
  {
    if |facts| == 0 then None
    else if facts[0].category == c then Some(facts[0].value)
    else ValueOf(facts[1..], c)
  }

  lemma {:induction false} ValueOfConcat(a: seq<Fact>, b: seq<Fact>, c: Category)
    ensures ValueOf(a + b, c) == if ValueOf(a, c).Some? then ValueOf(a, c) else ValueOf(b, c)
    decreases |a|
  {
    if |a| > 0 {
      assert (a + b)[1..] == a[1..] + b;
      ValueOfConcat(a[1..], b, c);
    } else {
      assert a + b == b;
    }
  }

  /** No label appears twice in the facts list. */
  lemma LabelsAtMostOnce(s: string)
    ensures var facts := ExtractFacts(s);
      forall i, j :: 0 <= i < j < |facts| ==> Caption(facts[i].category) != Caption(facts[j].category)
  {
    var facts := ExtractFacts(s);
    forall i, j | 0 <= i < j < |facts| ensures Caption(facts[i].category) != Caption(facts[j].category) {
      CaptionsDistinct(facts[i].category, facts[j].category);
    }
  }

  /** A list of facts of other ranks holds no value for `c`. */
  lemma ValueOfOtherRanks(facts: seq<Fact>, lo: nat, hi: nat, c: Category)
    requires |facts| <= 1 && RanksWithin(facts, lo, hi) && !(lo <= Rank(c) < hi)
    ensures ValueOf(facts, c) == None
  {
    if |facts| == 1 {
      assert facts[0].category != c;
      assert facts[1..] == [];
    }
  }

  /** In six lists of ranks 0 to 5 in turn, the value for `c` is the one in the list of `c`'s rank. */
  lemma ValueOfSixParts(f0: seq<Fact>, f1: seq<Fact>, f2: seq<Fact>, f3: seq<Fact>, f4: seq<Fact>, f5: seq<Fact>, c: Category)
    requires |f0| <= 1 && RanksWithin(f0, 0, 1) && |f1| <= 1 && RanksWithin(f1, 1, 2)
    requires |f2| <= 1 && RanksWithin(f2, 2, 3) && |f3| <= 1 && RanksWithin(f3, 3, 4)
    requires |f4| <= 1 && RanksWithin(f4, 4, 5) && |f5| <= 1 && RanksWithin(f5, 5, 6)
    ensures c == Format ==> ValueOf(f0 + f1 + f2 + f3 + f4 + f5, c) == ValueOf(f0, c)
    ensures c == AbstractLength ==> ValueOf(f0 + f1 + f2 + f3 + f4 + f5, c) == ValueOf(f1, c)
    ensures c == Deadline ==> ValueOf(f0 + f1 + f2 + f3 + f4 + f5, c) == ValueOf(f2, c)
    ensures c == Languages ==> ValueOf(f0 + f1 + f2 + f3 + f4 + f5, c) == ValueOf(f3, c)
    ensures c == Participants ==> ValueOf(f0 + f1 + f2 + f3 + f4 + f5, c) == ValueOf(f4, c)
    ensures c == Fee ==> ValueOf(f0 + f1 + f2 + f3 + f4 + f5, c) == ValueOf(f5, c)
  {
    if Rank(c) != 0 { ValueOfOtherRanks(f0, 0, 1, c); }
    if Rank(c) != 1 { ValueOfOtherRanks(f1, 1, 2, c); }
    if Rank(c) != 2 { ValueOfOtherRanks(f2, 2, 3, c); }
    if Rank(c) != 3 { ValueOfOtherRanks(f3, 3, 4, c); }
    if Rank(c) != 4 { ValueOfOtherRanks(f4, 4, 5, c); }
    if Rank(c) != 5 { ValueOfOtherRanks(f5, 5, 6, c); }
    ValueOfConcat(f0, f1, c);
    ValueOfConcat(f0 + f1, f2, c);
    ValueOfConcat(f0 + f1 + f2, f3, c);
    ValueOfConcat(f0 + f1 + f2 + f3, f4, c);
    ValueOfConcat(f0 + f1 + f2 + f3 + f4, f5, c);
  }

  /** `lead + v + tail` for a capture `v`, if there is one. */
  function Wrap(capture: Option<string>, lead: string, tail: string): (r: Option<string>)
    ensures r.Some? <==> capture.Some?
    ensures lead == "" && tail == "" ==> r == capture
  {
    match capture
    case Some(v) => assert "" + v + "" == v; Some(lead + v + tail)
    case None => None
  }

  lemma ValueOfOptionalFact(c: Category, capture: Option<string>, lead: string, tail: string)
    ensures ValueOf(OptionalFact(c, capture, lead, tail), c) == Wrap(capture, lead, tail)
  {
    if capture.Some? {
      assert OptionalFact(c, capture, lead, tail)[1..] == [];
    }
  }

  /** The assembled list holds, for each category, exactly the value found for it. */
  lemma ValueOfAssembleFacts(format: Option<string>, abstractLength: Option<string>, deadline: Option<string>,
                             languages: Option<string>, participants: Option<string>, noFee: bool, c: Category)
    ensures ValueOf(AssembleFacts(format, abstractLength, deadline, languages, participants, noFee), c) ==
      match c
      case Format => Wrap(format, FormatLead, "")
      case AbstractLength => abstractLength
      case Deadline => deadline
      case Languages => languages
      case Participants => Wrap(participants, ParticipantsLead, ParticipantsTail)
      case Fee => if noFee then Some("keine") else None
  {
    var f0 := OptionalFact(Format, format, FormatLead, "");
    var f1 := OptionalFact(AbstractLength, abstractLength, "", "");
    var f2 := OptionalFact(Deadline, deadline, "", "");
    var f3 := OptionalFact(Languages, languages, "", "");
    var f4 := OptionalFact(Participants, participants, ParticipantsLead, ParticipantsTail);
    var f5: seq<Fact> := if noFee then [Fact(Fee, "keine")] else [];
    ValueOfSixParts(f0, f1, f2, f3, f4, f5, c);
    match c
    case Format => ValueOfOptionalFact(c, format, FormatLead, "");
    case AbstractLength => ValueOfOptionalFact(c, abstractLength, "", "");
    case Deadline => ValueOfOptionalFact(c, deadline, "", "");
    case Languages => ValueOfOptionalFact(c, languages, "", "");
    case Participants => ValueOfOptionalFact(c, participants, ParticipantsLead, ParticipantsTail);
    case Fee => if noFee { assert f5[1..] == []; }
  }

  /** The facts list holds, for each category, exactly the value its pattern gives. */
  lemma ValueOfExtractFacts(s: string, c: Category)
    ensures ValueOf(ExtractFacts(s), c) ==
      match c
      case Format => Wrap(FirstCapture(s, FormatPattern), FormatLead, "")
      case AbstractLength => FirstCapture(s, AbstractPattern)
      case Deadline => FirstCapture(s, DeadlinePattern)
      case Languages => FirstCapture(s, LanguagesPattern)
      case Participants => Wrap(FirstCapture(s, ParticipantsPattern), ParticipantsLead, ParticipantsTail)
      case Fee => if Includes(s, FeeMarker) then Some("keine") else None
  {
    ValueOfAssembleFacts(FirstCapture(s, FormatPattern), FirstCapture(s, AbstractPattern), FirstCapture(s, DeadlinePattern),
                         FirstCapture(s, LanguagesPattern), FirstCapture(s, ParticipantsPattern), Includes(s, FeeMarker), c);
  }

  /** In an ordered list, `ValueOf` gives the value of the one fact of its category. */
  lemma {:induction false} ValueOfInOrderedList(facts: seq<Fact>, c: Category)
    requires InDisplayOrder(facts)
    ensures forall f :: f in facts && f.category == c ==> ValueOf(facts, c) == Some(f.value)
    ensures ValueOf(facts, c).Some? ==> Fact(c, ValueOf(facts, c).value) in facts
    decreases |facts|
  {
    if |facts| > 0 {
      var rest := facts[1..];
      OrderedTail(facts);
      ValueOfInOrderedList(rest, c);
      assert facts == [facts[0]] + rest;
    }
  }

  /** The tail of an ordered list is ordered, and every category in it ranks above the head's. */
  lemma OrderedTail(facts: seq<Fact>)
    requires |facts| > 0 && InDisplayOrder(facts)
    ensures InDisplayOrder(facts[1..])
    ensures forall f :: f in facts[1..] ==> Rank(facts[0].category) < Rank(f.category)
  {
    var rest := facts[1..];
    forall i, j | 0 <= i < j < |rest| ensures Rank(rest[i].category) < Rank(rest[j].category) {
      assert rest[i] == facts[i + 1] && rest[j] == facts[j + 1];
    }
    forall f | f in rest ensures Rank(facts[0].category) < Rank(f.category) {
      var j :| 0 <= j < |rest| && rest[j] == f;
      assert facts[j + 1] == f;
    }
  }

  /** What a leftmost capture looks like: a non-empty run of class characters that sits between the prefix and the suffix. */
  lemma LeftmostCaptureShape(s: string, pat: Pattern, v: string)
    requires IsLeftmostCapture(s, pat, v)
    ensures |v| > 0
    ensures forall i :: 0 <= i < |v| ==> InClass(v[i], pat.capture)
    ensures exists p: nat :: OccursAt(s, pat.prefix + v + pat.suffix, p)
  {
    var start: nat :| CapturesAt(s, pat, start, v) && NoMatchBefore(s, pat, start);
    CapturedRunShape(s, pat, start, v);
  }

  lemma CapturedRunShape(s: string, pat: Pattern, start: nat, v: string)
    requires CapturesAt(s, pat, start, v)
    ensures |v| > 0
    ensures forall i :: 0 <= i < |v| ==> InClass(v[i], pat.capture)
    ensures OccursAt(s, pat.prefix + v + pat.suffix, start)
  {
    var k := start + |pat.prefix|;
    forall i | 0 <= i < |v| ensures InClass(v[i], pat.capture) {
      assert v[i] == s[k + i];
    }
    assert OccursAt(s, v, k);
    OccursInSequence(s, pat.prefix, v, pat.suffix, start);
  }

  /** Three strings occurring one after the other make up an occurrence of their concatenation. */
  lemma OccursInSequence(s: string, a: string, b: string, c: string, i: nat)
    requires OccursAt(s, a, i) && OccursAt(s, b, i + |a|) && OccursAt(s, c, i + |a| + |b|)
    ensures OccursAt(s, a + b + c, i)
  {
    assert s[i..i + |a| + |b| + |c|] == s[i..i + |a|] + s[i + |a|..i + |a| + |b|] + s[i + |a| + |b|..i + |a| + |b| + |c|];
  }

  /** A pattern has at most one leftmost capture. */
  lemma LeftmostCaptureUnique(s: string, pat: Pattern, v: string, w: string)
    requires Unambiguous(pat) && IsLeftmostCapture(s, pat, v) && IsLeftmostCapture(s, pat, w)
    ensures v == w
  {
    var p: nat :| CapturesAt(s, pat, p, v) && NoMatchBefore(s, pat, p);
    var p': nat :| CapturesAt(s, pat, p', w) && NoMatchBefore(s, pat, p');
    assert p == p';
    MatchIsWholeRun(s, pat, p, |v|);
    MatchIsWholeRun(s, pat, p, |w|);
  }

  /**
   * The Format fact is present exactly when its pattern matches, and its value
   * is "Vorträge, " followed by the leftmost capture.
   */
  lemma FormatFact(s: string)
    ensures ValueOf(ExtractFacts(s), Format).Some? <==> Matches(s, FormatPattern)
    ensures ValueOf(ExtractFacts(s), Format).Some? ==>
      var v := ValueOf(ExtractFacts(s), Format).value;
      StartsWith(v, FormatLead) && IsLeftmostCapture(s, FormatPattern, v[|FormatLead|..])
      && |v| > |FormatLead| && '<' !in v[|FormatLead|..]
  {
    ValueOfExtractFacts(s, Format);
    var found := FirstCapture(s, FormatPattern);
    if found.Some? {
      var v := FormatLead + found.value + "";
      assert v[..|FormatLead|] == FormatLead && v[|FormatLead|..] == found.value;
      LeftmostCaptureShape(s, FormatPattern, found.value);
    }
  }

  /** The Abstract fact is present exactly when its pattern matches, and its value is the leftmost capture. */
  lemma AbstractLengthFact(s: string)
    ensures ValueOf(ExtractFacts(s), AbstractLength).Some? <==> Matches(s, AbstractPattern)
    ensures ValueOf(ExtractFacts(s), AbstractLength).Some? ==>
      var v := ValueOf(ExtractFacts(s), AbstractLength).value;
      IsLeftmostCapture(s, AbstractPattern, v) && |v| > 0 && '<' !in v
  {
    ValueOfExtractFacts(s, AbstractLength);
    var found := FirstCapture(s, AbstractPattern);
    if found.Some? {
      LeftmostCaptureShape(s, AbstractPattern, found.value);
    }
  }

  /** The Deadline fact is present exactly when its pattern matches, and its value is the leftmost capture. */
  lemma DeadlineFact(s: string)
    ensures ValueOf(ExtractFacts(s), Deadline).Some? <==> Matches(s, DeadlinePattern)
    ensures ValueOf(ExtractFacts(s), Deadline).Some? ==>
      var v := ValueOf(ExtractFacts(s), Deadline).value;
      IsLeftmostCapture(s, DeadlinePattern, v) && |v| > 0 && '<' !in v
  {
    ValueOfExtractFacts(s, Deadline);
    var found := FirstCapture(s, DeadlinePattern);
    if found.Some? {
      LeftmostCaptureShape(s, DeadlinePattern, found.value);
    }
  }

  /** The Sprachen fact is present exactly when its pattern matches; its value is non-empty and holds no dot. */
  lemma LanguagesFact(s: string)
    ensures ValueOf(ExtractFacts(s), Languages).Some? <==> Matches(s, LanguagesPattern)
    ensures ValueOf(ExtractFacts(s), Languages).Some? ==>
      var v := ValueOf(ExtractFacts(s), Languages).value;
      IsLeftmostCapture(s, LanguagesPattern, v) && |v| > 0 && '.' !in v
  {
    ValueOfExtractFacts(s, Languages);
    var found := FirstCapture(s, LanguagesPattern);
    if found.Some? {
      LeftmostCaptureShape(s, LanguagesPattern, found.value);
    }
  }

  /**
   * The Teilnehmer fact is present exactly when its pattern matches; its value
   * is "max. " + d + " Personen" for the leftmost capture d, a non-empty run of digits.
   */
  lemma ParticipantsFact(s: string)
    ensures ValueOf(ExtractFacts(s), Participants).Some? <==> Matches(s, ParticipantsPattern)
    ensures ValueOf(ExtractFacts(s), Participants).Some? ==>
      var v := ValueOf(ExtractFacts(s), Participants).value;
      && |ParticipantsLead| < |v| - |ParticipantsTail|
      && v[..|ParticipantsLead|] == ParticipantsLead
      && v[|v| - |ParticipantsTail|..] == ParticipantsTail
      && IsLeftmostCapture(s, ParticipantsPattern, v[|ParticipantsLead|..|v| - |ParticipantsTail|])
      && forall i :: |ParticipantsLead| <= i < |v| - |ParticipantsTail| ==> '0' <= v[i] <= '9'
  {
    ValueOfExtractFacts(s, Participants);
    var found := FirstCapture(s, ParticipantsPattern);
    if found.Some? {
      var d := found.value;
      var v := ParticipantsLead + d + ParticipantsTail;
      LeftmostCaptureShape(s, ParticipantsPattern, d);
      assert v[..|ParticipantsLead|] == ParticipantsLead;
      assert v[|v| - |ParticipantsTail|..] == ParticipantsTail;
      assert v[|ParticipantsLead|..|v| - |ParticipantsTail|] == d;
      forall i | |ParticipantsLead| <= i < |v| - |ParticipantsTail| ensures '0' <= v[i] <= '9' {
        assert v[i] == d[i - |ParticipantsLead|];
      }
    }
  }

  /** The fact {Gebühr, keine} is in the list exactly when the input contains the fee marker. */
  lemma FeeFact(s: string)
    ensures Fact(Fee, "keine") in ExtractFacts(s) <==> exists i: nat :: OccursAt(s, FeeMarker, i)
    ensures forall f :: f in ExtractFacts(s) && f.category == Fee ==> f.value == "keine"
  {
    ValueOfExtractFacts(s, Fee);
    ValueOfInOrderedList(ExtractFacts(s), Fee);
  }

  /** What `generateFactsHTML` returns: the list of facts, one list item each, or its input as it is. */
  datatype FactsBlock = FactList(facts: seq<Fact>) | Verbatim(html: string)

  /** `generateFactsHTML`: the facts list when a fact was found, otherwise the input unchanged. */
  function GenerateFactsHtml(factsHtml: string): (r: FactsBlock)
    ensures r.FactList? ==> r.facts == ExtractFacts(factsHtml) && r.facts != []
    ensures r.Verbatim? ==> r.html == factsHtml && ExtractFacts(factsHtml) == []
  {
    var facts := ExtractFacts(factsHtml);
    if |facts| > 0 then FactList(facts) else Verbatim(factsHtml)
  }

  /** The input comes back unchanged exactly when none of the five patterns matches and the fee marker is absent. */
  lemma UnmatchedInputIsReturned(s: string)
    ensures GenerateFactsHtml(s) == Verbatim(s) <==>
      && !Matches(s, FormatPattern) && !Matches(s, AbstractPattern) && !Matches(s, DeadlinePattern)
      && !Matches(s, LanguagesPattern) && !Matches(s, ParticipantsPattern)
      && !(exists i: nat :: OccursAt(s, FeeMarker, i))
  {
  }
}
