/**
  The socket `request` handler of app.py. The parsed reply of `check_relevance`, the
  documents `check_relevance` retrieved and the fragments the answer generator
  streams are inputs; the handler's output is the ordered sequence of
  `response` events it emits, each a message and a references string.
 */
module Chat {
  import opened PyText

  /** A retrieved chunk: `metadata["source"]`, `metadata["page"]` and `page_content`. */
  datatype Doc = Doc(source: string, page: nat, content: string)

  /** One `response` event: `{'message': ..., 'references': ...}`. */
  datatype Event = Event(message: string, references: string)

  /** The value bound to `score` in the relevance check's JSON reply: a JSON string, or any other JSON value. */
  datatype Score = Text(s: string) | NonText

  /**
    The relevance check's parsed reply: an object with a `score` key, or a reply on
    which `relevance['score']` raises (no such key, or not a JSON object).
   */
  datatype Grade = Scored(score: Score) | Unscored

  datatype ChatError = ScoreLookupFailed

  /** What one `request` event ends in: the events emitted, or the exception raised. */
  datatype Outcome = Emitted(events: seq<Event>) | Raised(error: ChatError)

  const NotApplicable := "N/A"
  const IrrelevantNotice := "The question is considered irrelevant."
  const Break := "<br>\n"

  /** Python `relevance['score'] == 'irrelevant'`, which only a JSON string can meet. */
  predicate IsIrrelevant(g: Grade)
    requires g.Scored?
  {
    g.score == Text("irrelevant")
  }

  // ---------------------------------------------------------------------------
  // The streamed answer

  /** The fragments glued together in order. */
  function Concat(fragments: seq<string>): string {
    if fragments == [] then "" else fragments[0] + Concat(fragments[1..])
  }

  lemma {:induction false} ConcatAppend(a: seq<string>, b: seq<string>)
    ensures Concat(a + b) == Concat(a) + Concat(b)
  {
    if a == [] {
      assert a + b == b;
    } else {
      assert (a + b)[1..] == a[1..] + b;
      ConcatAppend(a[1..], b);
    }
  }

  /** The `k`-th streamed event (from 0) carries the first `k + 1` fragments and no references. */
  function Streamed(fragments: seq<string>): seq<Event> {
    seq(|fragments|, k requires 0 <= k < |fragments| => Event(Concat(fragments[..k + 1]), NotApplicable))
  }

  // ---------------------------------------------------------------------------
  // The references block

  const PageOpen := " 第"
  const PageClose := "頁:" + Break

  /** `f'{doc_source} 第{doc_page}頁:<br>\n'`, the page rendered in decimal. */
  function Header(d: Doc): (h: string)
    ensures d.source + PageOpen <= h
    ensures EndsWith(h, PageClose)
    ensures |h| >= |d.source| + |PageOpen| + 1 + |PageClose|
  {
    d.source + PageOpen + Decimal(d.page) + PageClose
  }

  /** The page can be read back from a header: the text between source and `頁:` is its decimal digits. */
  lemma HeaderReadsBack(d: Doc)
    ensures var h := Header(d);
      var digits := h[|d.source| + |PageOpen|..|h| - |PageClose|];
      AllDigits(digits) && ParseDecimal(digits) == d.page
  {
    var h := Header(d);
    assert h[|d.source| + |PageOpen|..|h| - |PageClose|] == Decimal(d.page);
    DecimalRoundTrip(d.page);
  }

  /** A header holds the source's newlines and the one of its closing `<br>\n`. */
  lemma HeaderNewlines(d: Doc)
    ensures Count(Header(d), '\n') == Count(d.source, '\n') + 1
  {
    var digits := Decimal(d.page);
    assert forall k :: 0 <= k < |digits| ==> digits[k] != '\n';
    CountAbsent(digits, '\n');
    CountAbsent(PageOpen, '\n');
    CountAbsent("頁:<br>", '\n');
    CountAppend("頁:<br>", "\n", '\n');
    assert "頁:<br>" + "\n" == PageClose;
    CountAppend(d.source + PageOpen + digits, PageClose, '\n');
    CountAppend(d.source + PageOpen, digits, '\n');
    CountAppend(d.source, PageOpen, '\n');
  }

  /** Each line followed by `<br>\n`. */
  function Lines(lines: seq<string>): string {
    if lines == [] then "" else lines[0] + Break + Lines(lines[1..])
  }

  lemma {:induction false} LinesAppend(lines: seq<string>, line: string)
    ensures Lines(lines + [line]) == Lines(lines) + line + Break
  {
    if lines == [] {
      assert lines + [line] == [line];
    } else {
      assert (lines + [line])[1..] == lines[1..] + [line];
      LinesAppend(lines[1..], line);
    }
  }

  lemma LinesSnoc(lines: seq<string>, j: nat)
    requires j < |lines|
    ensures Lines(lines[..j + 1]) == Lines(lines[..j]) + lines[j] + Break
  {
    LinesAppend(lines[..j], lines[j]);
    assert lines[..j + 1] == lines[..j] + [lines[j]];
  }

  /** What one document adds: its header, its lines, and a blank `<br>\n`. */
  function DocBlock(d: Doc): string {
    Header(d) + Lines(Split(d.content, '\n')) + Break
  }

  /** The references string: the documents' blocks in order. */
  function References(docs: seq<Doc>): string {
    if docs == [] then "" else DocBlock(docs[0]) + References(docs[1..])
  }

  lemma {:induction false} ReferencesAppend(a: seq<Doc>, b: seq<Doc>)
    ensures References(a + b) == References(a) + References(b)
  {
    if a == [] {
      assert a + b == b;
    } else {
      assert (a + b)[1..] == a[1..] + b;
      ReferencesAppend(a[1..], b);
    }
  }

  lemma ReferencesSnoc(docs: seq<Doc>, i: nat)
    requires i < |docs|
    ensures References(docs[..i + 1]) == References(docs[..i]) + DocBlock(docs[i])
  {
    ReferencesAppend(docs[..i], [docs[i]]);
    assert References([docs[i]]) == DocBlock(docs[i]) + References([]);
    assert docs[..i + 1] == docs[..i] + [docs[i]];
  }

  lemma BlockStep(docs: seq<Doc>, i: nat, lines: seq<string>)
    requires i < |docs| && lines == Split(docs[i].content, '\n')
    ensures References(docs[..i + 1]) == References(docs[..i]) + Header(docs[i]) + Lines(lines) + Break
  {
    ReferencesSnoc(docs, i);
  }

  /**
    The lines part of a block is the content with every newline turned
    into `<br>\n`, followed by one more `<br>\n`.
   */
  lemma {:induction false} LinesOfContent(content: string)
    ensures Lines(Split(content, '\n')) == ReplaceAll(content, "\n", Break) + Break
  {
    ReplaceAllUnfold(content, "\n", Break);
    if content != [] {
      LinesOfContent(content[1..]);
      var rest := Split(content[1..], '\n');
      if content[0] == '\n' {
        assert "\n" <= content;
        assert Split(content, '\n') == [""] + rest;
        assert ([""] + rest)[1..] == rest;
      } else {
        LinesOfContentStep(content);
      }
    }
  }

  /** Gluing a character onto the first line glues it onto the rendered lines. */
  lemma LinesGlue(c: char, lines: seq<string>, r: string)
    requires lines != [] && Lines(lines) == r + Break
    ensures Lines([[c] + lines[0]] + lines[1..]) == ([c] + r) + Break
  {
    var glued := [[c] + lines[0]] + lines[1..];
    var tail := Lines(lines[1..]);
    assert glued[1..] == lines[1..];
    assert Lines(glued) == [c] + (lines[0] + Break + tail);
  }

  /** The step of `LinesOfContent` where the content starts with an ordinary character. */
  lemma LinesOfContentStep(content: string)
    requires content != [] && content[0] != '\n'
    requires Lines(Split(content[1..], '\n')) == ReplaceAll(content[1..], "\n", Break) + Break
    ensures Lines(Split(content, '\n')) == ReplaceAll(content, "\n", Break) + Break
  {
    var rest := Split(content[1..], '\n');
    var r := ReplaceAll(content[1..], "\n", Break);
    assert Split(content, '\n') == [[content[0]] + rest[0]] + rest[1..];
    LinesGlue(content[0], rest, r);
    assert !("\n" <= content);
    ReplaceAllUnfold(content, "\n", Break);
  }

  /** Rendering separator-free lines puts exactly one newline after each of them. */
  lemma {:induction false} LinesCount(lines: seq<string>)
    requires forall k :: 0 <= k < |lines| ==> '\n' !in lines[k]
    ensures Count(Lines(lines), '\n') == |lines|
  {
    if lines != [] {
      LinesCount(lines[1..]);
      CountAbsent(lines[0], '\n');
      CountAbsent("<br>", '\n');
      CountAppend("<br>", "\n", '\n');
      assert "<br>" + "\n" == Break;
      CountAppend(lines[0], Break, '\n');
      CountAppend(lines[0] + Break, Lines(lines[1..]), '\n');
    }
  }

  /**
    A document contributes one line entry per piece of its content, that is
    its newlines plus one; with the header's and the closing `<br>\n`, its
    block holds two more newlines than its source and content together.
   */
  lemma DocBlockLineEntries(d: Doc)
    ensures Count(Lines(Split(d.content, '\n')), '\n') == Count(d.content, '\n') + 1
    ensures Count(DocBlock(d), '\n') == Count(d.source, '\n') + Count(d.content, '\n') + 3
  {
    var lines := Lines(Split(d.content, '\n'));
    LinesCount(Split(d.content, '\n'));
    HeaderNewlines(d);
    CountAbsent("<br>", '\n');
    CountAppend("<br>", "\n", '\n');
    assert "<br>" + "\n" == Break;
    CountAppend(Header(d) + lines, Break, '\n');
    CountAppend(Header(d), lines, '\n');
  }

  /** No references block is the placeholder `N/A`, so the final event is told apart from the streamed ones. */
  lemma {:induction false} ReferencesNotPlaceholder(docs: seq<Doc>)
    ensures References(docs) != NotApplicable
  {
    if docs != [] {
      var b := DocBlock(docs[0]);
      assert |b| >= |" 第"| + |Break|;
      assert |References(docs)| >= |b|;
    }
  }

  // ---------------------------------------------------------------------------
  // The handler

  /** The events emitted for a request, or the exception raised first. */
  function Respond(grade: Grade, docs: seq<Doc>, fragments: seq<string>): (r: Outcome)
    ensures r.Emitted? ==> |r.events| >= 1
    ensures r.Emitted? ==> forall k :: 0 <= k < |r.events| - 1 ==> r.events[k].references == NotApplicable
  {
    if grade.Unscored? then Raised(ScoreLookupFailed)
    else if IsIrrelevant(grade) then Emitted([Event(IrrelevantNotice, NotApplicable)])
    else Emitted(Streamed(fragments) + [Event(Concat(fragments), References(docs))])
  }

  /**
    The references loop: for each document its header, then each piece of
    `page_content.split('\n')` followed by `<br>\n`, then `<br>\n`.
   */
  method BuildReferences(docs: seq<Doc>) returns (references: string)
    ensures references == References(docs)
  {
    references := "";
    for i := 0 to |docs|
      invariant references == References(docs[..i])
    {
      var doc := docs[i];
      references := references + Header(doc);
      ghost var start := references;
      var lines := Split(doc.content, '\n');
      for j := 0 to |lines|
        invariant references == start + Lines(lines[..j])
      {
        LinesSnoc(lines, j);
        references := references + lines[j] + Break;
      }
      assert lines[..|lines|] == lines;
      references := references + Break;
      BlockStep(docs, i, lines);
    }
    assert docs[..|docs|] == docs;
  }

  /**
    `handle_request`: the relevance gate, then one event per streamed
    fragment carrying the answer so far, then the final event with the
    references built from the relevance check's documents.
   */
  method HandleRequest(grade: Grade, docs: seq<Doc>, fragments: seq<string>) returns (outcome: Outcome)
    ensures outcome == Respond(grade, docs, fragments)
  {
    if grade.Unscored? {
      return Raised(ScoreLookupFailed);
    }
    if IsIrrelevant(grade) {
      return Emitted([Event(IrrelevantNotice, NotApplicable)]);
    }
    var events: seq<Event> := [];
    var generation := "";
    for i := 0 to |fragments|
      invariant generation == Concat(fragments[..i])
      invariant |events| == i
      invariant forall k :: 0 <= k < i ==> events[k] == Event(Concat(fragments[..k + 1]), NotApplicable)
    {
      ConcatAppend(fragments[..i], [fragments[i]]);
      assert fragments[..i + 1] == fragments[..i] + [fragments[i]];
      generation := generation + fragments[i];
      events := events + [Event(generation, NotApplicable)];
    }
    assert fragments[..|fragments|] == fragments;
    var references := BuildReferences(docs);
    events := events + [Event(generation, references)];
    return Emitted(events);
  }

  // ---------------------------------------------------------------------------
  // Properties of the emitted events

  /** Exactly the score `'irrelevant'` yields the single notice event; no fragment is consumed. */
  lemma IrrelevantIffNotice(grade: Grade, docs: seq<Doc>, fragments: seq<string>)
    ensures Respond(grade, docs, fragments) == Emitted([Event(IrrelevantNotice, NotApplicable)])
        <==> grade.Scored? && IsIrrelevant(grade)
  {
    if grade.Scored? && !IsIrrelevant(grade) && fragments == [] {
      assert Concat(fragments) == "";
      assert Streamed(fragments) == [];
      var evs := Respond(grade, docs, fragments).events;
      assert evs == [Event("", References(docs))];
      assert evs[0].message != IrrelevantNotice;
    }
  }

  /** A reply whose `score` cannot be looked up raises before anything is emitted. */
  lemma UnscoredRaises(grade: Grade, docs: seq<Doc>, fragments: seq<string>)
    ensures Respond(grade, docs, fragments).Raised? <==> grade.Unscored?
  {
  }

  /**
    Every score other than the string `'irrelevant'` (not only `'relevant'`)
    goes on to generation: one event per fragment, then one more.
   */
  lemma RelevantEventCount(grade: Grade, docs: seq<Doc>, fragments: seq<string>)
    requires grade.Scored? && !IsIrrelevant(grade)
    ensures Respond(grade, docs, fragments).Emitted?
    ensures |Respond(grade, docs, fragments).events| == |fragments| + 1
  {
  }

  /**
    On the generation path, event `k` of the first `|fragments|` carries the
    first `k + 1` fragments and `N/A`, and each message extends the one before.
   */
  lemma {:induction false} StreamedMessagesGrow(grade: Grade, docs: seq<Doc>, fragments: seq<string>, j: nat, k: nat)
    requires grade.Scored? && !IsIrrelevant(grade)
    requires j <= k < |fragments|
    ensures var evs := Respond(grade, docs, fragments).events;
      && evs[k] == Event(Concat(fragments[..k + 1]), NotApplicable)
      && evs[j].message <= evs[k].message
  {
    var f := fragments;
    assert f[..k + 1] == f[..j + 1] + f[j + 1..k + 1];
    ConcatAppend(f[..j + 1], f[j + 1..k + 1]);
  }

  /**
    The final event carries the whole answer, every fragment in order, and
    the references built from the relevance check's documents; the answer extends
    every streamed message.
   */
  lemma {:induction false} FinalEvent(grade: Grade, docs: seq<Doc>, fragments: seq<string>)
    requires grade.Scored? && !IsIrrelevant(grade)
    ensures var evs := Respond(grade, docs, fragments).events;
      && evs[|fragments|] == Event(Concat(fragments), References(docs))
      && evs[|fragments|].references != NotApplicable
      && forall k :: 0 <= k < |fragments| ==> evs[k].message <= evs[|fragments|].message
  {
    var f := fragments;
    var evs := Respond(grade, docs, fragments).events;
    ReferencesNotPlaceholder(docs);
    forall k | 0 <= k < |f| ensures evs[k].message <= evs[|f|].message {
      assert f == f[..k + 1] + f[k + 1..];
      ConcatAppend(f[..k + 1], f[k + 1..]);
    }
  }

  /** The references are the documents' blocks concatenated in order; no documents give `""`. */
  lemma ReferencesInOrder(d: Doc, docs: seq<Doc>)
    ensures References([]) == ""
    ensures References([d] + docs) == DocBlock(d) + References(docs)
    ensures References(docs + [d]) == References(docs) + DocBlock(d)
  {
    assert ([d] + docs)[1..] == docs;
    ReferencesAppend(docs, [d]);
  }
}
