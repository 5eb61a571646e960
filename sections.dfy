/**
 * The section splitter of the call-for-papers page: the markdown text is
 * cleaned of escaped dots, tokenised, and its paragraphs are sorted into the
 * intro, the topic fields ("Themenfelder") and the hard facts, while one
 * paragraph supplies the key quote.
 */
module SectionSplitter {
  import opened Text

  /** A token of the markdown lexer, reduced to what the splitter looks at. */
  datatype Token = Heading(text: string) | Paragraph(text: string) | Other(kind: string)

  /** The three-state cursor: the bucket paragraphs currently go to. */
  datatype Cursor = Intro | Themenfelder | HardFacts

  datatype Sections = Sections(intro: seq<Token>, quote: string, themenfelder: seq<Token>, hardFacts: seq<Token>)

  /** The marker phrases a paragraph is recognised by, at its start. */
  const QuoteMarker := "Eine Grundsatzfrage"
  const TopicsMarker := "Wir laden zu Beiträgen ein"
  const FactsMarker := "Wir bitten um Einreichungen"
  const EndMarker := "Abstracts und Rückfragen"
  const AgendaMarker := "*Was kommt"

  /** No paragraph starts with two different marker phrases. */
  lemma MarkersExclusive(text: string)
    ensures StartsWith(text, QuoteMarker) ==>
      !StartsWith(text, TopicsMarker) && !StartsWith(text, FactsMarker) && !StartsWith(text, EndMarker)
    ensures StartsWith(text, TopicsMarker) ==> !StartsWith(text, FactsMarker) && !StartsWith(text, EndMarker)
    ensures StartsWith(text, FactsMarker) ==> !StartsWith(text, EndMarker)
  {
    if StartsWith(text, QuoteMarker) {
      assert text[0] == QuoteMarker[0] == 'E';
    }
    if StartsWith(text, TopicsMarker) {
      assert text[0] == TopicsMarker[0] == 'W' && text[4] == TopicsMarker[4] == 'l';
    }
    if StartsWith(text, FactsMarker) {
      assert text[0] == FactsMarker[0] == 'W' && text[4] == FactsMarker[4] == 'b';
    }
  }

  /** The state of the walk over the tokens; `stopped` once the end marker was seen. */
  datatype Walk = Walk(cursor: Cursor, sections: Sections, stopped: bool)

  const Start := Walk(Intro, Sections([], "", [], []), false)

  /** Adds paragraph `t` to the bucket the cursor `c` names; an agenda paragraph is not added to the intro. */
  function AddToSection(s: Sections, c: Cursor, t: Token): Sections
    requires t.Paragraph?
  {
    if c == Intro && !StartsWith(t.text, AgendaMarker) then s.(intro := s.intro + [t])
    else if c == Themenfelder then s.(themenfelder := s.themenfelder + [t])
    else if c == HardFacts then s.(hardFacts := s.hardFacts + [t])
    else s
  }

  /** One iteration of the walk over token `t`. */
  function Step(w: Walk, t: Token): Walk
  {
    if w.stopped then w
    else match t
      case Paragraph(text) =>
        if StartsWith(text, QuoteMarker) then
          var colon := IndexOf(text, ':');
          if colon > -1 then w.(sections := w.sections.(quote := Trim(text[colon + 1..]))) else w
        else
          var c := if StartsWith(text, TopicsMarker) then Themenfelder else w.cursor;
          var c' := if StartsWith(text, FactsMarker) then HardFacts else c;
          if StartsWith(text, EndMarker) then w.(cursor := c', stopped := true)
          else Walk(c', AddToSection(w.sections, c', t), false)
      case _ => w
  }

  /** The state after walking over all of `ts`, from the left. */
  function Run(ts: seq<Token>): Walk
    decreases |ts|
  {
    if |ts| == 0 then Start else Step(Run(ts[..|ts| - 1]), ts[|ts| - 1])
  }

  /** The sections the splitter produces from token sequence `ts`. */
  function SplitSections(ts: seq<Token>): Sections
  {
    Run(ts).sections
  }

  lemma RunPrefix(ts: seq<Token>, i: nat)
    requires i < |ts|
    ensures Run(ts[..i + 1]) == Step(Run(ts[..i]), ts[i])
  {
    assert ts[..i + 1][..i] == ts[..i];
  }

  /** Once the walk has stopped, the rest of the tokens change nothing. */
  lemma {:induction false} StoppedRunIsFinal(ts: seq<Token>, k: nat)
    requires k <= |ts| && Run(ts[..k]).stopped
    ensures Run(ts) == Run(ts[..k])
    decreases |ts|
  {
    if k < |ts| {
      var init := ts[..|ts| - 1];
      assert init[..k] == ts[..k];
      StoppedRunIsFinal(init, k);
    } else {
      assert ts[..k] == ts;
    }
  }

  /** The state after walking on from `w` over all of `ts`. */
  function Finish(w: Walk, ts: seq<Token>): Walk
    decreases |ts|
  {
    if |ts| == 0 then w else Finish(Step(w, ts[0]), ts[1..])
  }

  /** Walking over a prefix and then on over the rest is walking over everything. */
  lemma {:induction false} RunThenFinish(ts: seq<Token>, i: nat)
    requires i <= |ts|
    ensures Finish(Run(ts[..i]), ts[i..]) == Run(ts)
    decreases |ts| - i
  {
    if i < |ts| {
      RunPrefix(ts, i);
      assert ts[i..][1..] == ts[i + 1..];
      RunThenFinish(ts, i + 1);
    } else {
      assert ts[..i] == ts;
    }
  }

  lemma {:induction false} FinishStopped(w: Walk, ts: seq<Token>)
    requires w.stopped
    ensures Finish(w, ts) == w
    decreases |ts|
  {
    if |ts| > 0 {
      FinishStopped(w, ts[1..]);
    }
  }

  /** The walk as the page script writes it: a loop over the tokens with `continue` and `break`. */
  method ParseMarkdownSections(markdown: string, lex: string -> seq<Token>) returns (sections: Sections)
    ensures sections == SplitSections(lex(ReplaceEscapedDots(markdown)))
  {
    var cleaned := ReplaceEscapedDots(markdown);
    var tokens := lex(cleaned);
    var intro, quote, themenfelder, hardFacts := [], "", [], [];
    var current := Intro;
    RunThenFinish(tokens, 0);
    for i := 0 to |tokens|
      invariant Finish(Walk(current, Sections(intro, quote, themenfelder, hardFacts), false), tokens[i..]) == Run(tokens)
    {
      var token := tokens[i];
      assert tokens[i..][1..] == tokens[i + 1..];
      ghost var next := Step(Walk(current, Sections(intro, quote, themenfelder, hardFacts), false), token);
      assert Finish(next, tokens[i + 1..]) == Run(tokens);
      if token.Heading? {
        continue;
      }
      if token.Paragraph? {
        var text := token.text;
        MarkersExclusive(text);
        if StartsWith(text, QuoteMarker) {
          var colonIndex := IndexOf(text, ':');
          if colonIndex > -1 {
            quote := Trim(text[colonIndex + 1..]);
          }
          assert next == Walk(current, Sections(intro, quote, themenfelder, hardFacts), false);
          continue;
        }
        if StartsWith(text, TopicsMarker) {
          current := Themenfelder;
        }
        if StartsWith(text, FactsMarker) {
          current := HardFacts;
        }
        if StartsWith(text, EndMarker) {
          assert next.stopped && next.sections == Sections(intro, quote, themenfelder, hardFacts);
          FinishStopped(next, tokens[i + 1..]);
          break;
        }
        assert next == Walk(current, AddToSection(Sections(intro, quote, themenfelder, hardFacts), current, token), false);
        if current == Intro && !StartsWith(text, AgendaMarker) {
          intro := intro + [token];
        } else if current == Themenfelder {
          themenfelder := themenfelder + [token];
        } else if current == HardFacts {
          hardFacts := hardFacts + [token];
        }
      }
    }
    sections := Sections(intro, quote, themenfelder, hardFacts);
  }

  /** `renderTokens`: an empty token list renders as the empty string; otherwise the markdown parser decides. */
  function RenderTokens(tokens: seq<Token>, parse: seq<Token> -> string): (html: string)
    ensures tokens == [] ==> html == ""
    ensures tokens != [] ==> html == parse(tokens)
  {
    if |tokens| == 0 then "" else parse(tokens)
  }

  // ---------------------------------------------------------------------------
  // Properties of the splitter

  /** A paragraph that may be placed in a bucket: it neither sets the quote nor ends the walk. */
  predicate IsContentParagraph(t: Token)
  {
    t.Paragraph? && !StartsWith(t.text, QuoteMarker) && !StartsWith(t.text, EndMarker)
  }

  predicate IsEndParagraph(t: Token)
  {
    t.Paragraph? && StartsWith(t.text, EndMarker)
  }

  /** A paragraph that starts with the quote marker and has a colon, and so sets the quote. */
  predicate SetsQuote(t: Token)
  {
    t.Paragraph? && StartsWith(t.text, QuoteMarker) && ':' in t.text
  }

  /**
   * Headings, other tokens, quote paragraphs and the end paragraph never land
   * in a bucket, and no agenda paragraph lands in the intro.
   */
  lemma {:induction false} OnlyContentParagraphsAreBucketed(ts: seq<Token>)
    ensures forall t :: t in SplitSections(ts).intro ==> IsContentParagraph(t) && !StartsWith(t.text, AgendaMarker)
    ensures forall t :: t in SplitSections(ts).themenfelder ==> IsContentParagraph(t)
    ensures forall t :: t in SplitSections(ts).hardFacts ==> IsContentParagraph(t)
    decreases |ts|
  {
    if |ts| > 0 {
      OnlyContentParagraphsAreBucketed(ts[..|ts| - 1]);
    }
  }

  /** `sub` is an order-preserving subsequence of `s`. */
  ghost predicate IsSubsequence(sub: seq<Token>, s: seq<Token>)
    decreases |s|
  {
    if |s| == 0 then sub == []
    else
      IsSubsequence(sub, s[..|s| - 1])
      || (sub != [] && sub[|sub| - 1] == s[|s| - 1] && IsSubsequence(sub[..|sub| - 1], s[..|s| - 1]))
  }

  /**
   * `a`, `b` and `c` are picked out of `ts` in order, each position of `ts`
   * going to at most one of them.
   */
  ghost predicate DisjointSubsequences(ts: seq<Token>, a: seq<Token>, b: seq<Token>, c: seq<Token>)
    decreases |ts|
  {
    if |ts| == 0 then a == [] && b == [] && c == []
    else
      var init, last := ts[..|ts| - 1], ts[|ts| - 1];
      DisjointSubsequences(init, a, b, c)
      || (a != [] && a[|a| - 1] == last && DisjointSubsequences(init, a[..|a| - 1], b, c))
      || (b != [] && b[|b| - 1] == last && DisjointSubsequences(init, a, b[..|b| - 1], c))
      || (c != [] && c[|c| - 1] == last && DisjointSubsequences(init, a, b, c[..|c| - 1]))
  }

  /** The three buckets are picked out of the tokens in order, no token going to two of them. */
  lemma {:induction false} BucketsAreDisjointSubsequences(ts: seq<Token>)
    ensures var s := SplitSections(ts); DisjointSubsequences(ts, s.intro, s.themenfelder, s.hardFacts)
    decreases |ts|
  {
    if |ts| > 0 {
      var init := ts[..|ts| - 1];
      BucketsAreDisjointSubsequences(init);
      var s0, s := SplitSections(init), SplitSections(ts);
      assert s.intro == s0.intro || s.intro[..|s.intro| - 1] == s0.intro;
      assert s.themenfelder == s0.themenfelder || s.themenfelder[..|s.themenfelder| - 1] == s0.themenfelder;
      assert s.hardFacts == s0.hardFacts || s.hardFacts[..|s.hardFacts| - 1] == s0.hardFacts;
    }
  }

  /** Each of three disjoint subsequences is a subsequence. */
  lemma {:induction false} DisjointSubsequencesAreSubsequences(ts: seq<Token>, a: seq<Token>, b: seq<Token>, c: seq<Token>)
    requires DisjointSubsequences(ts, a, b, c)
    ensures IsSubsequence(a, ts) && IsSubsequence(b, ts) && IsSubsequence(c, ts)
    decreases |ts|
  {
    if |ts| > 0 {
      var init, last := ts[..|ts| - 1], ts[|ts| - 1];
      if DisjointSubsequences(init, a, b, c) {
        DisjointSubsequencesAreSubsequences(init, a, b, c);
      } else if a != [] && a[|a| - 1] == last && DisjointSubsequences(init, a[..|a| - 1], b, c) {
        DisjointSubsequencesAreSubsequences(init, a[..|a| - 1], b, c);
      } else if b != [] && b[|b| - 1] == last && DisjointSubsequences(init, a, b[..|b| - 1], c) {
        DisjointSubsequencesAreSubsequences(init, a, b[..|b| - 1], c);
      } else {
        DisjointSubsequencesAreSubsequences(init, a, b, c[..|c| - 1]);
      }
    }
  }

  /** Three disjoint subsequences together use no token of `ts` more often than it occurs. */
  lemma {:induction false} DisjointSubsequencesUseTokensOnce(ts: seq<Token>, a: seq<Token>, b: seq<Token>, c: seq<Token>)
    requires DisjointSubsequences(ts, a, b, c)
    ensures multiset(a) + multiset(b) + multiset(c) <= multiset(ts)
    decreases |ts|
  {
    if |ts| > 0 {
      var init, last := ts[..|ts| - 1], ts[|ts| - 1];
      assert multiset(ts) == multiset(init) + multiset{last} by {
        assert ts == init + [last];
      }
      if DisjointSubsequences(init, a, b, c) {
        DisjointSubsequencesUseTokensOnce(init, a, b, c);
      } else if a != [] && a[|a| - 1] == last && DisjointSubsequences(init, a[..|a| - 1], b, c) {
        DisjointSubsequencesUseTokensOnce(init, a[..|a| - 1], b, c);
        assert a == a[..|a| - 1] + [last];
      } else if b != [] && b[|b| - 1] == last && DisjointSubsequences(init, a, b[..|b| - 1], c) {
        DisjointSubsequencesUseTokensOnce(init, a, b[..|b| - 1], c);
        assert b == b[..|b| - 1] + [last];
      } else {
        DisjointSubsequencesUseTokensOnce(init, a, b, c[..|c| - 1]);
        assert c == c[..|c| - 1] + [last];
      }
    }
  }

  /** Each bucket is an order-preserving subsequence of the tokens, and no token is in two buckets. */
  lemma BucketsPartitionTokens(ts: seq<Token>)
    ensures var s := SplitSections(ts);
      IsSubsequence(s.intro, ts) && IsSubsequence(s.themenfelder, ts) && IsSubsequence(s.hardFacts, ts)
      && multiset(s.intro) + multiset(s.themenfelder) + multiset(s.hardFacts) <= multiset(ts)
  {
    BucketsAreDisjointSubsequences(ts);
    var s := SplitSections(ts);
    DisjointSubsequencesAreSubsequences(ts, s.intro, s.themenfelder, s.hardFacts);
    DisjointSubsequencesUseTokensOnce(ts, s.intro, s.themenfelder, s.hardFacts);
  }

  /** The walk stops exactly when an end paragraph has been seen. */
  lemma {:induction false} StoppedIffEndSeen(ts: seq<Token>)
    ensures Run(ts).stopped <==> exists j :: 0 <= j < |ts| && IsEndParagraph(ts[j])
    decreases |ts|
  {
    if |ts| > 0 {
      var init := ts[..|ts| - 1];
      StoppedIffEndSeen(init);
      if ts[|ts| - 1].Paragraph? {
        MarkersExclusive(ts[|ts| - 1].text);
      }
      assert forall j :: 0 <= j < |init| ==> init[j] == ts[j];
    }
  }

  /** A paragraph that moves the cursor to the topic fields. */
  predicate IsTopicsParagraph(t: Token)
  {
    t.Paragraph? && StartsWith(t.text, TopicsMarker)
  }

  /** A paragraph that moves the cursor to the hard facts. */
  predicate IsFactsParagraph(t: Token)
  {
    t.Paragraph? && StartsWith(t.text, FactsMarker)
  }

  /**
   * The cursor only moves on a marker paragraph: it stands on the topic fields
   * only after a topics paragraph, on the hard facts only after a facts
   * paragraph, and otherwise it is still on the intro.
   */
  lemma {:induction false} CursorFollowsMarkers(ts: seq<Token>)
    ensures Run(ts).cursor == Themenfelder ==> exists j :: 0 <= j < |ts| && IsTopicsParagraph(ts[j])
    ensures Run(ts).cursor == HardFacts ==> exists j :: 0 <= j < |ts| && IsFactsParagraph(ts[j])
    decreases |ts|
  {
    if |ts| > 0 {
      var init := ts[..|ts| - 1];
      CursorFollowsMarkers(init);
      if Run(init).cursor == Themenfelder {
        var j :| 0 <= j < |init| && IsTopicsParagraph(init[j]);
        assert ts[j] == init[j];
      }
      if Run(init).cursor == HardFacts {
        var j :| 0 <= j < |init| && IsFactsParagraph(init[j]);
        assert ts[j] == init[j];
      }
    }
  }

  /**
   * Only marker paragraphs move the cursor: one step leaves it where it was
   * unless the walk is still going and the token is a facts paragraph (to the
   * hard facts) or a topics paragraph (to the topic fields).
   */
  lemma CursorMovesOnlyOnMarkers(ts: seq<Token>, i: nat)
    requires i < |ts|
    ensures Run(ts[..i + 1]).cursor ==
      if Run(ts[..i]).stopped then Run(ts[..i]).cursor
      else if IsFactsParagraph(ts[i]) then HardFacts
      else if IsTopicsParagraph(ts[i]) then Themenfelder
      else Run(ts[..i]).cursor
  {
    RunPrefix(ts, i);
    if ts[i].Paragraph? {
      MarkersExclusive(ts[i].text);
    }
  }

  /** Buckets only grow: what a prefix of the tokens put into a bucket starts that bucket at the end. */
  lemma {:induction false} BucketsGrow(ts: seq<Token>, j: nat)
    requires j <= |ts|
    ensures Run(ts[..j]).sections.intro <= Run(ts).sections.intro
    ensures Run(ts[..j]).sections.themenfelder <= Run(ts).sections.themenfelder
    ensures Run(ts[..j]).sections.hardFacts <= Run(ts).sections.hardFacts
    decreases |ts|
  {
    if j < |ts| {
      var init := ts[..|ts| - 1];
      assert init[..j] == ts[..j];
      BucketsGrow(init, j);
    } else {
      assert ts[..j] == ts;
    }
  }

  /**
   * Once the cursor has left the intro it never returns to it, so the intro
   * bucket no longer changes.
   */
  lemma {:induction false} IntroIsNeverReentered(ts: seq<Token>, j: nat)
    requires j <= |ts| && Run(ts[..j]).cursor != Intro
    ensures Run(ts).cursor != Intro
    ensures Run(ts).sections.intro == Run(ts[..j]).sections.intro
    decreases |ts|
  {
    if j < |ts| {
      var init := ts[..|ts| - 1];
      assert init[..j] == ts[..j];
      IntroIsNeverReentered(init, j);
    } else {
      assert ts[..j] == ts;
    }
  }

  /** The bucket that cursor `c` names. */
  function Bucket(s: Sections, c: Cursor): seq<Token>
  {
    match c
    case Intro => s.intro
    case Themenfelder => s.themenfelder
    case HardFacts => s.hardFacts
  }

  /**
   * A content paragraph walked before any end paragraph moves the cursor as its
   * marker says and is appended to the bucket the cursor then names (an agenda
   * paragraph excepted when that bucket is the intro); the other buckets and
   * the quote stay as they were, and the paragraph is in that bucket at the end.
   */
  lemma ContentParagraphGoesToCursorBucket(ts: seq<Token>, i: nat)
    requires i < |ts| && IsContentParagraph(ts[i])
    requires forall j :: 0 <= j < i ==> !IsEndParagraph(ts[j])
    ensures var w, w' := Run(ts[..i]), Run(ts[..i + 1]);
      && w'.cursor == (if StartsWith(ts[i].text, FactsMarker) then HardFacts
                       else if StartsWith(ts[i].text, TopicsMarker) then Themenfelder
                       else w.cursor)
      && !w'.stopped
      && w'.sections.quote == w.sections.quote
      && (forall d: Cursor :: d != w'.cursor ==> Bucket(w'.sections, d) == Bucket(w.sections, d))
      && Bucket(w'.sections, w'.cursor) ==
           (if w'.cursor == Intro && StartsWith(ts[i].text, AgendaMarker) then Bucket(w.sections, w'.cursor)
            else Bucket(w.sections, w'.cursor) + [ts[i]])
    ensures !(Run(ts[..i + 1]).cursor == Intro && StartsWith(ts[i].text, AgendaMarker)) ==>
      ts[i] in Bucket(SplitSections(ts), Run(ts[..i + 1]).cursor)
  {
    StoppedIffEndSeen(ts[..i]);
    MarkersExclusive(ts[i].text);
    RunPrefix(ts, i);
    var c := Run(ts[..i + 1]).cursor;
    if !(c == Intro && StartsWith(ts[i].text, AgendaMarker)) {
      BucketsGrow(ts, i + 1);
      var b := Bucket(Run(ts[..i + 1]).sections, c);
      assert b[|b| - 1] == ts[i];
      assert b <= Bucket(SplitSections(ts), c);
    }
  }

  /**
   * A paragraph starting with the topics marker, before any end paragraph, puts
   * the cursor on the topic fields and is appended to the topic-field bucket.
   */
  lemma TopicsMarkerEntersThemenfelder(ts: seq<Token>, i: nat)
    requires i < |ts| && ts[i].Paragraph? && StartsWith(ts[i].text, TopicsMarker)
    requires forall j :: 0 <= j < i ==> !IsEndParagraph(ts[j])
    ensures Run(ts[..i + 1]).cursor == Themenfelder
    ensures Run(ts[..i + 1]).sections.themenfelder == Run(ts[..i]).sections.themenfelder + [ts[i]]
    ensures ts[i] in SplitSections(ts).themenfelder
  {
    MarkersExclusive(ts[i].text);
    ContentParagraphGoesToCursorBucket(ts, i);
  }

  /**
   * A paragraph starting with the facts marker, before any end paragraph, puts
   * the cursor on the hard facts and is appended to the hard-facts bucket.
   */
  lemma FactsMarkerEntersHardFacts(ts: seq<Token>, i: nat)
    requires i < |ts| && ts[i].Paragraph? && StartsWith(ts[i].text, FactsMarker)
    requires forall j :: 0 <= j < i ==> !IsEndParagraph(ts[j])
    ensures Run(ts[..i + 1]).cursor == HardFacts
    ensures Run(ts[..i + 1]).sections.hardFacts == Run(ts[..i]).sections.hardFacts + [ts[i]]
    ensures ts[i] in SplitSections(ts).hardFacts
  {
    MarkersExclusive(ts[i].text);
    ContentParagraphGoesToCursorBucket(ts, i);
  }

  /** Nothing from an end paragraph on has any effect, and the end paragraph is in no bucket. */
  lemma EndParagraphCutsOff(ts: seq<Token>, k: nat)
    requires k < |ts| && IsEndParagraph(ts[k])
    ensures SplitSections(ts) == SplitSections(ts[..k])
    ensures ts[k] !in SplitSections(ts).intro
    ensures ts[k] !in SplitSections(ts).themenfelder
    ensures ts[k] !in SplitSections(ts).hardFacts
  {
    if Run(ts[..k]).stopped {
      StoppedRunIsFinal(ts, k);
    } else {
      MarkersExclusive(ts[k].text);
      RunPrefix(ts, k);
      StoppedRunIsFinal(ts, k + 1);
    }
    OnlyContentParagraphsAreBucketed(ts);
  }

  /** Tokens that do not set the quote leave it as it is. */
  lemma {:induction false} QuoteStableWithoutSetters(ts: seq<Token>, j: nat)
    requires j <= |ts|
    requires forall m :: j <= m < |ts| ==> !SetsQuote(ts[m])
    ensures SplitSections(ts).quote == SplitSections(ts[..j]).quote
    decreases |ts|
  {
    if j < |ts| {
      var init := ts[..|ts| - 1];
      assert init[..j] == ts[..j];
      QuoteStableWithoutSetters(init, j);
    } else {
      assert ts[..j] == ts;
    }
  }

  /**
   * The last quote paragraph with a colon, before any end paragraph, decides
   * the quote: the trimmed text after its first colon.
   */
  lemma LastQuoteParagraphWins(ts: seq<Token>, i: nat, k: nat)
    requires i < |ts| && ts[i].Paragraph? && StartsWith(ts[i].text, QuoteMarker)
    requires k < |ts[i].text| && ts[i].text[k] == ':' && ':' !in ts[i].text[..k]
    requires forall j :: 0 <= j < i ==> !IsEndParagraph(ts[j])
    requires forall j :: i < j < |ts| ==> !SetsQuote(ts[j])
    ensures SplitSections(ts).quote == Trim(ts[i].text[k + 1..])
  {
    IndexOfFirst(ts[i].text, ':', k);
    StoppedIffEndSeen(ts[..i]);
    RunPrefix(ts, i);
    QuoteStableWithoutSetters(ts, i + 1);
  }

  /** Without a quote paragraph that has a colon, the quote stays empty. */
  lemma QuoteDefaultsToEmpty(ts: seq<Token>)
    requires forall j :: 0 <= j < |ts| ==> !SetsQuote(ts[j])
    ensures SplitSections(ts).quote == ""
  {
    QuoteStableWithoutSetters(ts, 0);
  }
}
