/** Reading a provider's server-sent-event stream. It starts from lines already
    classified; decoding JSON is not part of this model. */
module EventStream {
  import opened Wrappers

  datatype Choice = Choice(
    reasoningContent: Option<string>, reasoning: Option<string>, content: Option<string>, finishReason: Option<string>)

  datatype Usage = Usage(promptTokens: Option<nat>, completionTokens: Option<nat>)

  datatype Line =
    | Broken                                  // reading the line itself failed
    | Other                                   // not a `data:` line
    | Done                                    // `data: [DONE]`
    | Unreadable                              // data that is not an event
    | ErrorEvent                              // an event carrying `error`
    | Event(choice: Option<Choice>, usage: Option<Usage>)

  datatype FinishReason = Stop | Length

  datatype Stats = Stats(promptTokens: nat, completionTokens: nat, finishReason: FinishReason)

  datatype StreamError = ReadFailed | UnreadableEvent | ProviderError | EndedEarly

  /** What is handed on: the two tags, and pieces of the answer or of the
      reasoning before it. */
  datatype Token = OpenTag | CloseTag | Piece(reasoning: bool, text: string)

  /** A delta that is present and not empty. */
  function NonEmpty(delta: Option<string>): Option<string> {
    if delta.Some? && delta.value != "" then delta else None
  }

  function ReasoningOf(c: Choice): Option<string> {
    if NonEmpty(c.reasoningContent).Some? then NonEmpty(c.reasoningContent) else NonEmpty(c.reasoning)
  }

  /** A count that fits 32 bits, or zero. */
  function CountOf(n: Option<nat>): nat {
    if n.Some? && n.value < 0x1_0000_0000 then n.value else 0
  }

  class TokenSink {
    var tokens: seq<Token>

    method OnToken(t: Token)
      modifies this
      ensures tokens == old(tokens) + [t]
    {
      tokens := tokens + [t];
    }
  }

  // ---- What a stream says, line by line -------------------------------------

  /** The pieces one line contributes, reasoning first. */
  function PiecesOf(l: Line): seq<Token> {
    if !l.Event? || l.choice.None? then []
    else
      var c := l.choice.value;
      (if ReasoningOf(c).Some? then [Piece(true, ReasoningOf(c).value)] else [])
      + (if NonEmpty(c.content).Some? then [Piece(false, NonEmpty(c.content).value)] else [])
  }

  function AllPieces(lines: seq<Line>): seq<Token> {
    if lines == [] then [] else AllPieces(lines[..|lines| - 1]) + PiecesOf(lines[|lines| - 1])
  }

  predicate Finishes(l: Line) {
    l.Event? && l.choice.Some? && l.choice.value.finishReason.Some?
  }

  predicate FinishesByLength(l: Line) {
    Finishes(l) && l.choice.value.finishReason.value == "length"
  }

  predicate Fatal(l: Line) {
    l.Broken? || l.Unreadable? || l.ErrorEvent?
  }

  /** Where reading stops: the first `[DONE]` or fatal line, or the end. */
  function StopsAt(lines: seq<Line>): (k: nat)
    ensures k <= |lines|
    ensures forall i :: 0 <= i < k ==> lines[i].Other? || lines[i].Event?
    ensures k < |lines| ==> !lines[k].Other? && !lines[k].Event?
  {
    if lines == [] || lines[0].Done? || Fatal(lines[0]) then 0
    else
      assert forall i :: 1 <= i < |lines| ==> lines[i] == lines[1..][i - 1];
      1 + StopsAt(lines[1..])
  }

  /** The last usage reported, as counts. */
  function UsageOf(lines: seq<Line>): (nat, nat) {
    if lines == [] then (0, 0)
    else
      var l := lines[|lines| - 1];
      if l.Event? && l.usage.Some? then (CountOf(l.usage.value.promptTokens), CountOf(l.usage.value.completionTokens))
      else UsageOf(lines[..|lines| - 1])
  }

  // ---- What the tokens promise ----------------------------------------------

  /** Reading the tokens from left to right: tags alternate, reasoning is inside
      and content outside. `None` is a breach; otherwise whether a tag is open. */
  function Bracketed(tokens: seq<Token>): Option<bool> {
    if tokens == [] then Some(false)
    else
      var before := Bracketed(tokens[..|tokens| - 1]);
      if before.None? then None
      else
        match tokens[|tokens| - 1]
        case OpenTag => if before.value then None else Some(true)
        case CloseTag => if before.value then Some(false) else None
        case Piece(reasoning, _) => if reasoning == before.value then before else None
  }

  function WithoutTags(tokens: seq<Token>): seq<Token> {
    if tokens == [] then []
    else
      WithoutTags(tokens[..|tokens| - 1]) + if tokens[|tokens| - 1].Piece? then [tokens[|tokens| - 1]] else []
  }

  lemma Snoc(tokens: seq<Token>, t: Token)
    ensures WithoutTags(tokens + [t]) == WithoutTags(tokens) + if t.Piece? then [t] else []
    ensures Bracketed(tokens + [t]) ==
            (if Bracketed(tokens).None? then None
             else
               match t
               case OpenTag => if Bracketed(tokens).value then None else Some(true)
               case CloseTag => if Bracketed(tokens).value then Some(false) else None
               case Piece(reasoning, _) => if reasoning == Bracketed(tokens).value then Bracketed(tokens) else None)
  {
    assert (tokens + [t])[..|tokens + [t]| - 1] == tokens;
  }

  /** The state of the tokens once `lines` have been read. */
  ghost predicate Emitted(tokens: seq<Token>, lines: seq<Line>, inReasoning: bool) {
    Bracketed(tokens) == Some(inReasoning) && WithoutTags(tokens) == AllPieces(lines)
  }

  ghost predicate StatsOf(stats: Stats, lines: seq<Line>) {
    && (stats.promptTokens, stats.completionTokens) == UsageOf(lines)
    && (stats.finishReason == Length <==> exists i :: 0 <= i < |lines| && FinishesByLength(lines[i]))
  }

  /** Hand on one piece, first opening or closing the reasoning if its kind
      calls for it. */
  method EmitPiece(reasoning: bool, text: string, inReasoning: bool, sink: TokenSink)
    requires Bracketed(sink.tokens) == Some(inReasoning)
    modifies sink
    ensures Bracketed(sink.tokens) == Some(reasoning)
    ensures WithoutTags(sink.tokens) == WithoutTags(old(sink.tokens)) + [Piece(reasoning, text)]
  {
    hide Bracketed, WithoutTags;
    if reasoning && !inReasoning {
      Snoc(sink.tokens, OpenTag);
      sink.OnToken(OpenTag);
    } else if !reasoning && inReasoning {
      Snoc(sink.tokens, CloseTag);
      sink.OnToken(CloseTag);
    }
    Snoc(sink.tokens, Piece(reasoning, text));
    sink.OnToken(Piece(reasoning, text));
  }

  /** The pieces of one choice. */
  method EmitPieces(c: Choice, inReasoning: bool, sink: TokenSink, ghost lines: seq<Line>, ghost l: Line)
      returns (inReasoning': bool)
    requires Emitted(sink.tokens, lines, inReasoning) && l.Event? && l.choice == Some(c)
    modifies sink
    ensures Emitted(sink.tokens, lines + [l], inReasoning')
  {
    hide Bracketed, WithoutTags, AllPieces, ReasoningOf, NonEmpty;
    PiecesSnoc(lines, l);
    inReasoning' := inReasoning;
    var reasoning, content := ReasoningOf(c), NonEmpty(c.content);
    if reasoning.Some? {
      EmitPiece(true, reasoning.value, inReasoning', sink);
      inReasoning' := true;
    }
    if content.Some? {
      EmitPiece(false, content.value, inReasoning', sink);
      inReasoning' := false;
    }
  }

  lemma PiecesSnoc(lines: seq<Line>, l: Line)
    ensures AllPieces(lines + [l]) == AllPieces(lines) + PiecesOf(l)
  {
    assert (lines + [l])[..|lines + [l]| - 1] == lines;
  }

  /** Read the stream into `sink`. On every stream the tokens handed on are well
      bracketed and, tags apart, are the pieces of the lines read, in order:
      outside the tags exactly the non-empty contents, inside exactly the
      non-empty reasonings, a line's reasoning before its content. The call
      succeeds exactly when `[DONE]` stops it, or nothing does and some
      line gave a finish reason. */
  method ReadStream(lines: seq<Line>, sink: TokenSink) returns (r: Result<Stats, StreamError>)
    requires sink.tokens == []
    modifies sink
    ensures Bracketed(sink.tokens).Some? && WithoutTags(sink.tokens) == AllPieces(lines[..StopsAt(lines)])
    ensures r.Success? <==>
              if StopsAt(lines) < |lines| then lines[StopsAt(lines)].Done?
              else exists i :: 0 <= i < |lines| && lines[i].Event? && lines[i].choice.Some?
                               && lines[i].choice.value.finishReason.Some?
    ensures Texts(sink.tokens) == Said(lines[..StopsAt(lines)])
    ensures TextsWhere(sink.tokens, false) == Contents(lines[..StopsAt(lines)])
    ensures TextsWhere(sink.tokens, true) == Reasonings(lines[..StopsAt(lines)])
    ensures r.Success? ==> StatsOf(r.value, lines[..StopsAt(lines)])
    ensures r.Failure? ==>
              if StopsAt(lines) == |lines| then r.error == EndedEarly
              else match lines[StopsAt(lines)]
                   case Broken => r.error == ReadFailed
                   case Unreadable => r.error == UnreadableEvent
                   case _ => r.error == ProviderError
  {
    hide Bracketed, WithoutTags, Emitted, AllPieces, StatsOf, Texts, TextsWhere, Said, Contents, Reasonings;
    var stats := Stats(0, 0, Stop);
    var finished, inReasoning := false, false;
    Nothing();
    for i := 0 to |lines|
      invariant i <= StopsAt(lines)
      invariant Emitted(sink.tokens, lines[..i], inReasoning) && StatsOf(stats, lines[..i])
      invariant finished <==> exists k :: 0 <= k < i && Finishes(lines[k])
    {
      var line := lines[i];
      EmittedMeans(sink.tokens, lines[..i], inReasoning);
      SaidOnTheirSide(sink.tokens, lines[..i]);
      assert i < StopsAt(lines) || StopsAt(lines) == i;
      match line {
        case Broken => return Failure(ReadFailed);
        case Other =>
          Quiet(sink.tokens, lines[..i], inReasoning, line);
        case Done =>
          return Success(stats);
        case Unreadable => return Failure(UnreadableEvent);
        case ErrorEvent => return Failure(ProviderError);
        case Event(choice, usage) =>
          if choice.Some? {
            inReasoning := EmitPieces(choice.value, inReasoning, sink, lines[..i], line);
          } else {
            Quiet(sink.tokens, lines[..i], inReasoning, line);
          }
      }
      assert lines[..i + 1] == lines[..i] + [line];
      StatsSnoc(stats, lines[..i], line);
      if line.Event? {
        if line.choice.Some? {
          match line.choice.value.finishReason {
            case Some(reason) =>
              if reason == "length" {
                stats := stats.(finishReason := Length);
              }
              finished := true;
            case None =>
          }
        }
        if line.usage.Some? {
          stats := stats.(promptTokens := CountOf(line.usage.value.promptTokens),
                          completionTokens := CountOf(line.usage.value.completionTokens));
        }
      }
    }
    assert lines[..|lines|] == lines;
    EmittedMeans(sink.tokens, lines, inReasoning);
    SaidOnTheirSide(sink.tokens, lines);
    r := if finished then Success(stats) else Failure(EndedEarly);
  }

  // ---- What is said, read off the lines -------------------------------------

  /** The texts handed on. */
  function Texts(tokens: seq<Token>): seq<string> {
    if tokens == [] then []
    else
      Texts(tokens[..|tokens| - 1]) + if tokens[|tokens| - 1].Piece? then [tokens[|tokens| - 1].text] else []
  }

  /** Whether a tag is open: whether the last tag opens. */
  function TagOpen(tokens: seq<Token>): bool {
    if tokens == [] then false
    else if tokens[|tokens| - 1].Piece? then TagOpen(tokens[..|tokens| - 1])
    else tokens[|tokens| - 1].OpenTag?
  }

  /** The texts that stand inside the tags, or those outside. */
  function TextsWhere(tokens: seq<Token>, inside: bool): seq<string> {
    if tokens == [] then []
    else
      var front, t := tokens[..|tokens| - 1], tokens[|tokens| - 1];
      TextsWhere(front, inside) + if t.Piece? && TagOpen(front) == inside then [t.text] else []
  }

  /** The non-empty `content` of each event, in order. */
  function Contents(lines: seq<Line>): seq<string> {
    if lines == [] then []
    else
      Contents(lines[..|lines| - 1])
      + match lines[|lines| - 1]
        case Event(Some(c), _) => if c.content.Some? && c.content.value != "" then [c.content.value] else []
        case _ => []
  }

  /** The non-empty `reasoning_content` of each event, or else its non-empty
      `reasoning`, in order. */
  function Reasonings(lines: seq<Line>): seq<string> {
    if lines == [] then []
    else
      Reasonings(lines[..|lines| - 1])
      + match lines[|lines| - 1]
        case Event(Some(c), _) =>
          if c.reasoningContent.Some? && c.reasoningContent.value != "" then [c.reasoningContent.value]
          else if c.reasoning.Some? && c.reasoning.value != "" then [c.reasoning.value]
          else []
        case _ => []
  }

  /** Both, line by line, the reasoning of a line before its content. */
  function Said(lines: seq<Line>): seq<string> {
    if lines == [] then []
    else
      var last := lines[|lines| - 1..];
      Said(lines[..|lines| - 1]) + Reasonings(last) + Contents(last)
  }

  /** Where the tokens are the pieces of the lines, each text stands on its side
      of the tags. */
  lemma SaidOnTheirSide(tokens: seq<Token>, lines: seq<Line>)
    requires Bracketed(tokens).Some? && WithoutTags(tokens) == AllPieces(lines)
    ensures Texts(tokens) == Said(lines)
    ensures TextsWhere(tokens, false) == Contents(lines)
    ensures TextsWhere(tokens, true) == Reasonings(lines)
  {
    hide *;
    SidesByFlag(tokens, true);
    SidesByFlag(tokens, false);
    PiecesSay(lines);
  }

  /** The texts of the pieces flagged one way. */
  function Flagged(pieces: seq<Token>, reasoning: bool): seq<string> {
    if pieces == [] then []
    else
      var t := pieces[|pieces| - 1];
      Flagged(pieces[..|pieces| - 1], reasoning) + if t.Piece? && t.reasoning == reasoning then [t.text] else []
  }

  lemma {:induction false} FlaggedConcat(a: seq<Token>, b: seq<Token>, reasoning: bool)
    ensures Flagged(a + b, reasoning) == Flagged(a, reasoning) + Flagged(b, reasoning)
    decreases |b|
  {
    hide Flagged;
    NothingSaid();
    if b == [] {
      assert a + b == a && Flagged(a, reasoning) + [] == Flagged(a, reasoning);
    } else {
      var front, t := b[..|b| - 1], b[|b| - 1];
      FlaggedConcat(a, front, reasoning);
      FlaggedSnoc(a + front, t, reasoning);
      FlaggedSnoc(front, t, reasoning);
      assert a + b == (a + front) + [t] && b == front + [t];
    }
  }

  lemma {:induction false} TextsConcat(a: seq<Token>, b: seq<Token>)
    ensures Texts(a + b) == Texts(a) + Texts(b)
    decreases |b|
  {
    hide Texts;
    NothingSaid();
    if b == [] {
      assert a + b == a && Texts(a) + [] == Texts(a);
    } else {
      var front, t := b[..|b| - 1], b[|b| - 1];
      TextsConcat(a, front);
      TextsSnoc(a + front, t);
      TextsSnoc(front, t);
      assert a + b == (a + front) + [t] && b == front + [t];
    }
  }

  lemma NothingSaid()
    ensures Texts([]) == [] && Flagged([], true) == [] && Flagged([], false) == []
    ensures Contents([]) == [] && Reasonings([]) == [] && Said([]) == [] && AllPieces([]) == []
  {
  }

  lemma FlaggedSnoc(tokens: seq<Token>, t: Token, reasoning: bool)
    ensures Flagged(tokens + [t], reasoning)
            == Flagged(tokens, reasoning) + if t.Piece? && t.reasoning == reasoning then [t.text] else []
  {
    assert (tokens + [t])[..|tokens|] == tokens;
  }

  lemma TextsSnoc(tokens: seq<Token>, t: Token)
    ensures Texts(tokens + [t]) == Texts(tokens) + if t.Piece? then [t.text] else []
  {
    assert (tokens + [t])[..|tokens|] == tokens;
  }

  lemma {:induction false} SidesByFlag(tokens: seq<Token>, inside: bool)
    requires Bracketed(tokens).Some?
    ensures Bracketed(tokens).value == TagOpen(tokens)
    ensures TextsWhere(tokens, inside) == Flagged(WithoutTags(tokens), inside)
    ensures Texts(tokens) == Texts(WithoutTags(tokens))
  {
    if tokens != [] {
      var front, t := tokens[..|tokens| - 1], tokens[|tokens| - 1];
      SidesByFlag(front, inside);
      if t.Piece? {
        var kept := WithoutTags(front);
        assert (kept + [t])[..|kept|] == kept;
      } else {
        assert WithoutTags(front) + [] == WithoutTags(front);
      }
    }
  }

  lemma {:induction false} PiecesSay(lines: seq<Line>)
    ensures Flagged(AllPieces(lines), false) == Contents(lines)
    ensures Flagged(AllPieces(lines), true) == Reasonings(lines)
    ensures Texts(AllPieces(lines)) == Said(lines)
  {
    hide *;
    NothingSaid();
    if lines != [] {
      var front, l := lines[..|lines| - 1], lines[|lines| - 1];
      assert lines == front + [l];
      PiecesSay(front);
      PiecesSnoc(front, l);
      LineSays(l);
      FlaggedConcat(AllPieces(front), PiecesOf(l), false);
      FlaggedConcat(AllPieces(front), PiecesOf(l), true);
      TextsConcat(AllPieces(front), PiecesOf(l));
      SaidSnoc(front, l);
      assert Said(front) + (Reasonings([l]) + Contents([l])) == Said(front) + Reasonings([l]) + Contents([l]);
    }
  }

  lemma LineSays(l: Line)
    ensures Flagged(PiecesOf(l), false) == Contents([l])
    ensures Flagged(PiecesOf(l), true) == Reasonings([l])
    ensures Texts(PiecesOf(l)) == Reasonings([l]) + Contents([l])
  {
    hide Flagged, Texts;
    NothingSaid();
    LineIs(l);
    var a, b := Reasonings([l]), Contents([l]);
    var inside := if a == [] then [] else [Piece(true, a[0])];
    var outside := if b == [] then [] else [Piece(false, b[0])];
    if a != [] {
      OnePiece(Piece(true, a[0]));
    }
    if b != [] {
      OnePiece(Piece(false, b[0]));
    }
    FlaggedConcat(inside, outside, true);
    FlaggedConcat(inside, outside, false);
    TextsConcat(inside, outside);
  }

  /** The pieces of a line: at most one text inside the tags and one outside. */
  lemma LineIs(l: Line)
    ensures |Reasonings([l])| <= 1 && |Contents([l])| <= 1
    ensures PiecesOf(l) == (if Reasonings([l]) == [] then [] else [Piece(true, Reasonings([l])[0])])
                           + (if Contents([l]) == [] then [] else [Piece(false, Contents([l])[0])])
  {
    assert [l][..0] == [];
    NothingSaid();
  }

  lemma OnePiece(t: Token)
    requires t.Piece?
    ensures Texts([t]) == [t.text] && Flagged([t], t.reasoning) == [t.text] && Flagged([t], !t.reasoning) == []
  {
    NothingSaid();
    assert [] + [t] == [t];
    TextsSnoc([], t);
    FlaggedSnoc([], t, true);
    FlaggedSnoc([], t, false);
  }

  lemma SaidSnoc(front: seq<Line>, l: Line)
    ensures Contents(front + [l]) == Contents(front) + Contents([l])
    ensures Reasonings(front + [l]) == Reasonings(front) + Reasonings([l])
    ensures Said(front + [l]) == Said(front) + Reasonings([l]) + Contents([l])
  {
    var all := front + [l];
    assert all[..|all| - 1] == front && all[|all| - 1..] == [l] && [l][..0] == [];
    assert Contents([]) == [] && Reasonings([]) == [];
  }

  /** The counts are those of the last usage reported, each zero when absent or
      too large for 32 bits; the reason is length exactly when some line says
      so. */
  lemma {:induction false} StatsAre(stats: Stats, lines: seq<Line>, i: int)
    requires StatsOf(stats, lines)
    requires -1 <= i < |lines| && forall j :: i < j < |lines| ==> !(lines[j].Event? && lines[j].usage.Some?)
    requires i >= 0 ==> lines[i].Event? && lines[i].usage.Some?
    ensures i == -1 ==> stats.promptTokens == 0 && stats.completionTokens == 0
    ensures i >= 0 ==>
              var usage := lines[i].usage.value;
              && stats.promptTokens == (match usage.promptTokens
                                        case Some(n) => if n <= 0xFFFF_FFFF then n else 0
                                        case None => 0)
              && stats.completionTokens == (match usage.completionTokens
                                            case Some(n) => if n <= 0xFFFF_FFFF then n else 0
                                            case None => 0)
    ensures stats.finishReason == Length <==>
            exists j :: 0 <= j < |lines| && lines[j].Event? && lines[j].choice.Some?
                        && lines[j].choice.value.finishReason == Some("length")
  {
    LastUsage(lines, i);
    if j :| 0 <= j < |lines| && lines[j].Event? && lines[j].choice.Some?
            && lines[j].choice.value.finishReason == Some("length") {
      assert FinishesByLength(lines[j]);
    }
  }

  lemma {:induction false} LastUsage(lines: seq<Line>, i: int)
    requires -1 <= i < |lines| && forall j :: i < j < |lines| ==> !(lines[j].Event? && lines[j].usage.Some?)
    requires i >= 0 ==> lines[i].Event? && lines[i].usage.Some?
    ensures UsageOf(lines) ==
            if i == -1 then (0, 0)
            else (CountOf(lines[i].usage.value.promptTokens), CountOf(lines[i].usage.value.completionTokens))
  {
    if lines != [] && i < |lines| - 1 {
      LastUsage(lines[..|lines| - 1], i);
    }
  }

  lemma Nothing()
    ensures Emitted([], [], false) && StatsOf(Stats(0, 0, Stop), [])
  {
  }

  lemma EmittedMeans(tokens: seq<Token>, lines: seq<Line>, inReasoning: bool)
    requires Emitted(tokens, lines, inReasoning)
    ensures Bracketed(tokens).Some? && WithoutTags(tokens) == AllPieces(lines)
  {
  }

  lemma Quiet(tokens: seq<Token>, lines: seq<Line>, inReasoning: bool, l: Line)
    requires Emitted(tokens, lines, inReasoning) && PiecesOf(l) == []
    ensures Emitted(tokens, lines + [l], inReasoning)
  {
    assert (lines + [l])[..|lines + [l]| - 1] == lines;
  }

  lemma StatsSnoc(stats: Stats, lines: seq<Line>, l: Line)
    requires StatsOf(stats, lines)
    ensures StatsOf(Stats(if l.Event? && l.usage.Some? then CountOf(l.usage.value.promptTokens) else stats.promptTokens,
                          if l.Event? && l.usage.Some? then CountOf(l.usage.value.completionTokens)
                              else stats.completionTokens,
                          if FinishesByLength(l) then Length else stats.finishReason), lines + [l])
  {
    var all := lines + [l];
    assert all[..|all| - 1] == lines && all[|all| - 1] == l;
    if exists i :: 0 <= i < |lines| && FinishesByLength(lines[i]) {
      var i :| 0 <= i < |lines| && FinishesByLength(lines[i]);
      assert FinishesByLength(all[i]);
    }
    if exists i :: 0 <= i < |all| && FinishesByLength(all[i]) {
      var i :| 0 <= i < |all| && FinishesByLength(all[i]);
      assert i < |lines| ==> all[i] == lines[i];
    }
  }

  // ---- What the bracketing means --------------------------------------------

  function Tags(tokens: seq<Token>): seq<Token> {
    if tokens == [] then []
    else Tags(tokens[..|tokens| - 1]) + if tokens[|tokens| - 1].Piece? then [] else [tokens[|tokens| - 1]]
  }

  /** Well bracketed tokens carry tags that alternate from an open one, and a
      tag is left open exactly when there is an odd number of them. */
  lemma {:induction false} TagsAlternate(tokens: seq<Token>)
    requires Bracketed(tokens).Some?
    ensures forall i :: 0 <= i < |Tags(tokens)| ==> Tags(tokens)[i] == if i % 2 == 0 then OpenTag else CloseTag
    ensures Bracketed(tokens).value <==> |Tags(tokens)| % 2 == 1
  {
    if tokens != [] {
      TagsAlternate(tokens[..|tokens| - 1]);
    }
  }

  /** A piece is reasoning exactly when an odd number of tags precede it. */
  lemma {:induction false} PiecesAreOnTheirSide(tokens: seq<Token>, i: nat)
    requires Bracketed(tokens).Some? && i < |tokens| && tokens[i].Piece?
    ensures tokens[i].reasoning <==> |Tags(tokens[..i])| % 2 == 1
  {
    if i == |tokens| - 1 {
      TagsAlternate(tokens[..i]);
    } else {
      var front := tokens[..|tokens| - 1];
      PiecesAreOnTheirSide(front, i);
      assert front[..i] == tokens[..i];
    }
  }
}
