/**
 Reassembly of container log lines from chunks, and the window of recent lines.
 */
module Logs {
  import opened Text
  import opened TextFacts

  // ---------------------------------------------------------------------------
  // What a stream's text says
  // ---------------------------------------------------------------------------

  function DropCrs(line: string): string {
    TrimEndOf(line, '\r')
  }

  /** A line as it is sent, if it is. */
  function Sent(line: string): seq<string> {
    if line == "" then [] else [line]
  }

  /** The lines of a text that are ended by a newline: carriage returns dropped, empty ones left out. */
  function EndedLines(text: string): seq<string>
    decreases |text|
  {
    if '\n' !in text then [] else
      var i := IndexOf(text, '\n');
      Sent(DropCrs(text[..i])) + EndedLines(text[i + 1..])
  }

  /** What follows the last newline. */
  function Tail(text: string): string {
    if '\n' in text then text[LastIndexOf(text, '\n') + 1..] else text
  }

  /** All the lines of a text that has come to its end. */
  function AllLines(text: string): seq<string> {
    EndedLines(text) + Sent(Trim(Tail(text)))
  }

  lemma EndedLinesStep(a: string, i: nat)
    requires i < |a| && a[i] == '\n' && '\n' !in a[..i]
    ensures EndedLines(a) == Sent(DropCrs(a[..i])) + EndedLines(a[i + 1..])
  {
    IndexOfUnique(a, '\n', i);
  }

  lemma {:induction false} EndedLinesAppend(a: string, b: string)
    ensures EndedLines(a + b) == EndedLines(a) + EndedLines(Tail(a) + b)
    decreases |a|
  {
    if '\n' in a {
      var i := IndexOf(a, '\n');
      var rest := a[i + 1..];
      assert (a + b)[..i] == a[..i] && (a + b)[i + 1..] == rest + b;
      EndedLinesStep(a, i);
      EndedLinesStep(a + b, i);
      TailAfterNewline(a, i);
      EndedLinesAppend(rest, b);
      Regroup(Sent(DropCrs(a[..i])), EndedLines(rest), EndedLines(Tail(rest) + b));
    }
  }

  lemma TailAfterNewline(a: string, i: nat)
    requires i < |a| && a[i] == '\n'
    ensures Tail(a[i + 1..]) == Tail(a)
  {
    var rest := a[i + 1..];
    if '\n' in rest {
      var j := LastIndexOf(rest, '\n');
      assert a[i + 1 + j + 1..] == rest[j + 1..];
      LastIndexOfUnique(a, '\n', i + 1 + j);
    } else {
      LastIndexOfUnique(a, '\n', i);
    }
  }

  lemma TailAppend(a: string, b: string)
    ensures Tail(a + b) == Tail(Tail(a) + b)
  {
    if '\n' in a {
      var i := LastIndexOf(a, '\n');
      assert (a + b)[i + 1..] == Tail(a) + b;
      TailAfterNewline(a + b, i);
    }
  }

  /** Pieces with their carriage returns dropped, empty ones left out. */
  function Kept(pieces: seq<string>): seq<string> {
    if pieces == [] then [] else Sent(DropCrs(pieces[0])) + Kept(pieces[1..])
  }

  lemma KeptCons(line: string, more: seq<string>)
    requires more != []
    ensures Kept(([line] + more)[..|more|]) == Sent(DropCrs(line)) + Kept(more[..|more| - 1])
  {
    assert ([line] + more)[..|more|] == [line] + more[..|more| - 1];
    assert ([line] + more[..|more| - 1])[1..] == more[..|more| - 1];
  }

  /** The text is these pieces: all but the last are ended, the last is the tail. */
  ghost predicate HasPieces(text: string, pieces: seq<string>) {
    pieces != [] && EndedLines(text) == Kept(pieces[..|pieces| - 1]) && Tail(text) == pieces[|pieces| - 1]
  }

  lemma SplitAtNewline(text: string, i: nat)
    requires i < |text| && text[i] == '\n' && '\n' !in text[..i]
    ensures SplitOn(text, '\n') == [text[..i]] + SplitOn(text[i + 1..], '\n')
  {
    assert text == text[..i] + ['\n'] + text[i + 1..];
    SplitJoined(text, text[..i], text[i + 1..]);
  }

  lemma SplitJoined(text: string, line: string, rest: string)
    requires text == line + ['\n'] + rest && '\n' !in line
    ensures SplitOn(text, '\n') == [line] + SplitOn(rest, '\n')
  {
    SplitOnAppend(line, '\n', rest);
  }

  lemma PiecesStep(text: string, i: nat, more: seq<string>)
    requires i < |text| && text[i] == '\n' && '\n' !in text[..i] && HasPieces(text[i + 1..], more)
    ensures HasPieces(text, [text[..i]] + more)
  {
    EndedLinesStep(text, i);
    TailAfterNewline(text, i);
    KeptCons(text[..i], more);
  }

  /** In terms of cutting the text at its newlines: all pieces but the last are ended, the last is the tail. */
  lemma {:induction false} LinesArePieces(text: string)
    ensures HasPieces(text, SplitOn(text, '\n'))
    decreases |text|
  {
    if '\n' in text {
      var i := IndexOf(text, '\n');
      LinesArePieces(text[i + 1..]);
      PiecesStep(text, i, SplitOn(text[i + 1..], '\n'));
      SplitAtNewline(text, i);
    } else {
      SplitOnAppend(text, '\n', "");
    }
  }

  /**
   The lines that pieces of text give: one for each piece that has more than carriage returns, which is the
   piece without the carriage returns at its end.
   */
  ghost predicate LinesOfPieces(lines: seq<string>, pieces: seq<string>) {
    if pieces == [] then lines == []
    else if Only(pieces[0], '\r') then LinesOfPieces(lines, pieces[1..])
    else lines != [] && lines[0] != "" && CutAtEnd(pieces[0], lines[0], '\r') && LinesOfPieces(lines[1..], pieces[1..])
  }

  lemma CutToNothing(s: string, left: string, c: char)
    requires CutAtEnd(s, left, c)
    ensures left == "" <==> Only(s, c)
  {
    if left == "" {
      assert s[0..] == s;
    } else {
      assert left[|left| - 1] == s[|left| - 1] && s[|left| - 1] in s;
    }
  }

  lemma {:induction false} KeptAreLines(pieces: seq<string>)
    ensures LinesOfPieces(Kept(pieces), pieces)
  {
    if pieces != [] {
      var line := DropCrs(pieces[0]);
      TrimEndOfMeans(pieces[0], '\r');
      CutToNothing(pieces[0], line, '\r');
      KeptAreLines(pieces[1..]);
      assert line != "" ==> Kept(pieces)[1..] == Kept(pieces[1..]);
      assert line == "" ==> Kept(pieces) == Kept(pieces[1..]);
    }
  }

  /** The pieces of a text that newlines end. */
  function EndedPieces(text: string): seq<string> {
    var pieces := SplitOn(text, '\n');
    pieces[..|pieces| - 1]
  }

  /** The piece that no newline ends. */
  function LastPiece(text: string): string {
    var pieces := SplitOn(text, '\n');
    pieces[|pieces| - 1]
  }

  function NonEmpty(pieces: seq<string>): seq<string> {
    if pieces == [] then [] else (if pieces[0] == "" then [] else [pieces[0]]) + NonEmpty(pieces[1..])
  }

  lemma {:induction false} LinesWithoutCr(lines: seq<string>, pieces: seq<string>)
    requires LinesOfPieces(lines, pieces) && forall piece | piece in pieces :: '\r' !in piece
    ensures lines == NonEmpty(pieces)
  {
    if pieces != [] {
      var piece := pieces[0];
      assert piece in pieces;
      if Only(piece, '\r') {
        OnlyNothing(piece, '\r');
        LinesWithoutCr(lines, pieces[1..]);
      } else {
        var rest := piece[|lines[0]|..];
        assert forall x | x in rest :: x in piece;
        OnlyNothing(rest, '\r');
        assert lines[0] == piece;
        LinesWithoutCr(lines[1..], pieces[1..]);
      }
    }
  }

  lemma PiecesLackCr(text: string)
    requires '\r' !in text
    ensures forall piece | piece in EndedPieces(text) :: '\r' !in piece
  {
    SplitKeeps(text, '\n', '\r');
    assert forall piece | piece in EndedPieces(text) :: piece in SplitOn(text, '\n');
  }

  /** The lines of a text without carriage returns are simply its non-empty pieces. */
  lemma PlainLines(text: string)
    requires '\r' !in text
    ensures EndedLines(text) == NonEmpty(EndedPieces(text))
  {
    EndedLinesMean(text);
    PiecesLackCr(text);
    LinesWithoutCr(EndedLines(text), EndedPieces(text));
  }

  /** Indentation and all else but carriage returns at the end is kept: a line as it is sent. */
  lemma EndedLinesMean(text: string)
    ensures LinesOfPieces(EndedLines(text), EndedPieces(text)) && Tail(text) == LastPiece(text)
  {
    LinesArePieces(text);
    KeptAreLines(EndedPieces(text));
  }

  /** What is sent from a stream that has come to its end: its lines, then its trimmed tail unless that is blank. */
  ghost predicate SentFrom(sent: seq<string>, text: string) {
    exists ended :: LinesOfPieces(ended, EndedPieces(text)) && sent == ended + Flushed(LastPiece(text))
  }

  function Flushed(piece: string): seq<string> {
    if Blank(piece) then [] else [Trim(piece)]
  }

  lemma AllLinesMean(text: string)
    ensures SentFrom(AllLines(text), text)
    ensures '\r' !in text ==> AllLines(text) == NonEmpty(EndedPieces(text)) + Flushed(LastPiece(text))
  {
    EndedLinesMean(text);
    BlankTrims(LastPiece(text));
    if '\r' !in text {
      PlainLines(text);
    }
  }

  lemma BlankTrims(s: string)
    ensures Trim(s) == "" <==> Blank(s)
  {
    var from := TrimMeans(s);
    if Trim(s) != "" {
      assert Trim(s)[0] == s[from] && s[from] in s;
    }
  }

  // ---------------------------------------------------------------------------
  // The splitter
  // ---------------------------------------------------------------------------

  datatype Stream = StdOut | StdErr | Console

  /** What the log stream yields. */
  datatype Item = Chunk(stream: Stream, text: string) | StdIn | Error(message: string)

  /** A line on the channel.  Only the line is sent; its origin is kept for the statements below. */
  datatype Message = Line(origin: Stream, line: string) | Notice(line: string)

  /** The text a stream has carried in the items so far. */
  function Carried(items: seq<Item>, stream: Stream): string {
    if items == [] then "" else
      var last := items[|items| - 1];
      Carried(items[..|items| - 1], stream) + (if last.Chunk? && last.stream == stream then last.text else "")
  }

  function Messages(stream: Stream, lines: seq<string>): seq<Message> {
    if lines == [] then [] else [Line(stream, lines[0])] + Messages(stream, lines[1..])
  }

  /** The lines that came from one stream, in order. */
  function From(sent: seq<Message>, stream: Stream): seq<string> {
    if sent == [] then []
    else (if sent[0].Line? && sent[0].origin == stream then [sent[0].line] else []) + From(sent[1..], stream)
  }

  lemma {:induction false} FromAppend(a: seq<Message>, b: seq<Message>, stream: Stream)
    ensures From(a + b, stream) == From(a, stream) + From(b, stream)
  {
    if a == [] {
      assert a + b == b;
    } else {
      FromAppend(a[1..], b, stream);
      assert (a + b)[1..] == a[1..] + b;
      Regroup(if a[0].Line? && a[0].origin == stream then [a[0].line] else [], From(a[1..], stream), From(b, stream));
    }
  }

  lemma {:induction false} FromMessages(origin: Stream, lines: seq<string>, stream: Stream)
    ensures From(Messages(origin, lines), stream) == if origin == stream then lines else []
  {
    if lines != [] {
      FromMessages(origin, lines[1..], stream);
      assert Messages(origin, lines)[1..] == Messages(origin, lines[1..]);
    }
  }

  lemma {:induction false} MessagesAppend(stream: Stream, a: seq<string>, b: seq<string>)
    ensures Messages(stream, a + b) == Messages(stream, a) + Messages(stream, b)
  {
    if a == [] {
      assert a + b == b;
    } else {
      MessagesAppend(stream, a[1..], b);
      assert (a + b)[1..] == a[1..] + b;
      Regroup([Line(stream, a[0])], Messages(stream, a[1..]), Messages(stream, b));
    }
  }

  /** The unended piece of each stream. */
  datatype Held = Held(stdout: string, stderr: string, console: string) {
    function Of(stream: Stream): string {
      match stream case StdOut => stdout case StdErr => stderr case Console => console
    }

    function With(stream: Stream, piece: string): Held {
      match stream
      case StdOut => this.(stdout := piece)
      case StdErr => this.(stderr := piece)
      case Console => this.(console := piece)
    }
  }

  /** Everything so far has been sent or is held: per stream, its ended lines and its tail. */
  ghost predicate UpTo(items: seq<Item>, sent: seq<Message>, held: Held) {
    forall s: Stream :: UpToIn(items, sent, held, s)
  }

  ghost predicate UpToIn(items: seq<Item>, sent: seq<Message>, held: Held, s: Stream) {
    held.Of(s) == Tail(Carried(items, s)) && From(sent, s) == EndedLines(Carried(items, s))
  }

  /** What the messages of a new chunk do to one stream. */
  lemma ChunkStep(items: seq<Item>, sent: seq<Message>, stream: Stream, text: string, s: Stream)
    requires From(sent, s) == EndedLines(Carried(items, s))
    ensures From(sent + Messages(stream, EndedLines(Tail(Carried(items, stream)) + text)), s)
         == EndedLines(Carried(items + [Chunk(stream, text)], s))
  {
    var lines := EndedLines(Tail(Carried(items, stream)) + text);
    CarriedStep(items, Chunk(stream, text), s);
    FromAppend(sent, Messages(stream, lines), s);
    FromMessages(stream, lines, s);
    if s == stream {
      EndedLinesAppend(Carried(items, s), text);
    } else {
      assert Carried(items, s) + "" == Carried(items, s);
    }
  }

  lemma CarriedStep(items: seq<Item>, item: Item, s: Stream)
    ensures Carried(items + [item], s) == Carried(items, s) + (if item.Chunk? && item.stream == s then item.text else "")
    ensures !(item.Chunk? && item.stream == s) ==> Carried(items + [item], s) == Carried(items, s)
  {
    assert (items + [item])[..|items|] == items;
  }

  lemma TailStep(items: seq<Item>, stream: Stream, text: string)
    ensures Tail(Carried(items + [Chunk(stream, text)], stream)) == Tail(Tail(Carried(items, stream)) + text)
  {
    CarriedStep(items, Chunk(stream, text), stream);
    TailAppend(Carried(items, stream), text);
  }

  lemma UpToChunk(items: seq<Item>, sent: seq<Message>, held: Held, stream: Stream, text: string)
    requires UpTo(items, sent, held)
    ensures UpTo(items + [Chunk(stream, text)],
                 sent + Messages(stream, EndedLines(held.Of(stream) + text)),
                 held.With(stream, Tail(held.Of(stream) + text)))
  {
    var items', sent', held' := items + [Chunk(stream, text)],
                                sent + Messages(stream, EndedLines(held.Of(stream) + text)),
                                held.With(stream, Tail(held.Of(stream) + text));
    assert UpToIn(items, sent, held, stream);
    forall s: Stream ensures UpToIn(items', sent', held', s) {
      assert UpToIn(items, sent, held, s);
      ChunkStep(items, sent, stream, text, s);
      TailStep(items, stream, text);
      CarriedStep(items, Chunk(stream, text), s);
    }
  }

  /** What flushing one held piece does to the lines of one stream. */
  lemma FlushStep(sent: seq<Message>, stream: Stream, piece: string, s: Stream)
    ensures From(sent + Messages(stream, Sent(Trim(piece))), s)
         == From(sent, s) + (if s == stream then Sent(Trim(piece)) else [])
  {
    FromAppend(sent, Messages(stream, Sent(Trim(piece))), s);
    FromMessages(stream, Sent(Trim(piece)), s);
  }

  lemma FlushedAll(items: seq<Item>, sent: seq<Message>, held: Held, s: Stream)
    requires UpTo(items, sent, held)
    ensures From(sent + Messages(StdOut, Sent(Trim(held.stdout))) + Messages(StdErr, Sent(Trim(held.stderr)))
                 + Messages(Console, Sent(Trim(held.console))), s) == AllLines(Carried(items, s))
  {
    var m1 := sent + Messages(StdOut, Sent(Trim(held.stdout)));
    var m2 := m1 + Messages(StdErr, Sent(Trim(held.stderr)));
    FlushStep(sent, StdOut, held.stdout, s);
    FlushStep(m1, StdErr, held.stderr, s);
    FlushStep(m2, Console, held.console, s);
    assert UpToIn(items, sent, held, s);
    assert From(sent, s) + [] == From(sent, s);
  }

  /** The reader of a container's logs, and what it has put on the channel. */
  class LogReader {
    var sent: seq<Message>

    constructor ()
      ensures sent == []
    {
      sent := [];
    }

    method AppendLogChunk(stream: Stream, partial: string, chunk: string) returns (partial': string)
      modifies this
      ensures partial' == Tail(partial + chunk)
      ensures sent == old(sent) + Messages(stream, EndedLines(partial + chunk))
      ensures exists lines :: sent == old(sent) + Messages(stream, lines) && LinesOfPieces(lines, EndedPieces(partial + chunk))
      ensures partial' == LastPiece(partial + chunk)
    {
      EndedLinesMean(partial + chunk);
      partial' := partial + chunk;
      while '\n' in partial'
        invariant Tail(partial') == Tail(partial + chunk)
        invariant sent + Messages(stream, EndedLines(partial')) == old(sent) + Messages(stream, EndedLines(partial + chunk))
        decreases |partial'|
      {
        var pos := IndexOf(partial', '\n');
        var line := DropCrs(partial'[..pos]);
        TailAfterNewline(partial', pos);
        EndedMessages(sent, stream, partial', pos);
        if line != "" {
          sent := sent + [Line(stream, line)];
        }
        partial' := partial'[pos + 1..];
      }
    }

    method FlushPartial(stream: Stream, partial: string)
      modifies this
      ensures sent == old(sent) + Messages(stream, Sent(Trim(partial)))
      ensures sent == old(sent) + Messages(stream, Flushed(partial))
    {
      BlankTrims(partial);
      var line := Trim(partial);
      if line != "" {
        sent := sent + [Line(stream, line)];
      }
    }

    method FlushAll(ghost items: seq<Item>, held: Held)
      requires UpTo(items, sent, held)
      modifies this
      ensures forall s :: From(sent, s) == AllLines(Carried(items, s))
    {
      forall s {
        FlushedAll(items, sent, held, s);
      }
      FlushPartial(StdOut, held.stdout);
      FlushPartial(StdErr, held.stderr);
      FlushPartial(Console, held.console);
    }

    /** One item that is not an error. */
    method TakeIn(ghost items: seq<Item>, held: Held, item: Item) returns (held': Held)
      requires UpTo(items, sent, held) && !item.Error?
      modifies this
      ensures UpTo(items + [item], sent, held')
    {
      held' := held;
      match item {
        case Chunk(stream, text) =>
          UpToChunk(items, sent, held, stream, text);
          var piece := AppendLogChunk(stream, held.Of(stream), text);
          held' := held.With(stream, piece);
        case StdIn =>
          InputIgnored(items, sent, held);
      }
    }

    /**
     Read a log stream to its end or its first error.  For every cutting of the streams' texts into
     chunks and every interleaving, the lines sent from a stream are the lines of its whole text; an
     error leaves the unended tails unsent and is sent as a notice.
     */
    method StreamContainerLogs(items: seq<Item>) returns (ghost read: nat)
      requires sent == []
      modifies this
      ensures read <= |items| && forall i | 0 <= i < read :: !items[i].Error?
      ensures read == |items| ==> forall s :: From(sent, s) == AllLines(Carried(items, s))
      ensures read == |items| ==> forall s :: SentFrom(From(sent, s), Carried(items, s))
      ensures read == |items| ==> forall s | '\r' !in Carried(items, s) ::
                From(sent, s) == NonEmpty(EndedPieces(Carried(items, s))) + Flushed(LastPiece(Carried(items, s)))
      ensures read < |items| ==>
                && items[read].Error?
                && (forall s :: From(sent, s) == EndedLines(Carried(items[..read], s)))
                && (forall s :: LinesOfPieces(From(sent, s), EndedPieces(Carried(items[..read], s))))
                && sent != [] && sent[|sent| - 1] == Notice("[log stream error] " + items[read].message)
    {
      var held := Held("", "", "");
      var n := 0;
      while n < |items|
        invariant 0 <= n <= |items|
        invariant UpTo(items[..n], sent, held)
        invariant forall i | 0 <= i < n :: !items[i].Error?
      {
        assert items[..n + 1] == items[..n] + [items[n]];
        if items[n].Error? {
          StoppedByError(items[..n], sent, held, items[n].message);
          sent := sent + [Failure(items[n].message)];
          read := n;
          return;
        }
        held := TakeIn(items[..n], held, items[n]);
        n := n + 1;
      }
      assert items[..n] == items;
      FlushAll(items, held);
      EndedMeans(items, sent);
      read := n;
    }
  }

  lemma InputIgnored(items: seq<Item>, sent: seq<Message>, held: Held)
    requires UpTo(items, sent, held)
    ensures UpTo(items + [StdIn], sent, held)
  {
    forall s: Stream ensures UpToIn(items + [StdIn], sent, held, s) {
      assert UpToIn(items, sent, held, s);
      CarriedStep(items, StdIn, s);
    }
  }

  /** What has been sent at the end, in terms of the pieces of the streams' texts. */
  lemma EndedMeans(items: seq<Item>, sent: seq<Message>)
    requires forall s :: From(sent, s) == AllLines(Carried(items, s))
    ensures forall s :: SentFrom(From(sent, s), Carried(items, s))
    ensures forall s | '\r' !in Carried(items, s) ::
              From(sent, s) == NonEmpty(EndedPieces(Carried(items, s))) + Flushed(LastPiece(Carried(items, s)))
  {
    forall s ensures SentFrom(From(sent, s), Carried(items, s)) {
      AllLinesMean(Carried(items, s));
    }
    forall s | '\r' !in Carried(items, s)
      ensures From(sent, s) == NonEmpty(EndedPieces(Carried(items, s))) + Flushed(LastPiece(Carried(items, s)))
    {
      AllLinesMean(Carried(items, s));
    }
  }

  function Failure(message: string): Message {
    Notice("[log stream error] " + message)
  }

  lemma StoppedByError(items: seq<Item>, sent: seq<Message>, held: Held, message: string)
    requires UpTo(items, sent, held)
    ensures forall s :: From(sent + [Failure(message)], s) == EndedLines(Carried(items, s))
    ensures forall s :: LinesOfPieces(From(sent + [Failure(message)], s), EndedPieces(Carried(items, s)))
  {
    forall s ensures From(sent + [Failure(message)], s) == EndedLines(Carried(items, s))
             ensures LinesOfPieces(From(sent + [Failure(message)], s), EndedPieces(Carried(items, s))) {
      EndedLinesMean(Carried(items, s));
      assert UpToIn(items, sent, held, s);
      FromAppend(sent, [Failure(message)], s);
    }
  }

  lemma EndedMessages(sent: seq<Message>, stream: Stream, text: string, pos: nat)
    requires pos < |text| && text[pos] == '\n' && '\n' !in text[..pos]
    ensures var line := DropCrs(text[..pos]);
            sent + Messages(stream, EndedLines(text))
            == (if line == "" then sent else sent + [Line(stream, line)]) + Messages(stream, EndedLines(text[pos + 1..]))
  {
    var line, rest := DropCrs(text[..pos]), EndedLines(text[pos + 1..]);
    EndedLinesStep(text, pos);
    MessagesAppend(stream, Sent(line), rest);
    assert Messages(stream, Sent(line)) == if line == "" then [] else [Line(stream, line)];
    Regroup(sent, Messages(stream, Sent(line)), Messages(stream, rest));
  }

  // ---------------------------------------------------------------------------
  // Recent lines
  // ---------------------------------------------------------------------------

  const RECENT := 15

  /** The last lines of a sequence, at most `RECENT`. */
  function LastLines(lines: seq<string>): seq<string> {
    if |lines| <= RECENT then lines else lines[|lines| - RECENT..]
  }

  lemma LastLinesAre(lines: seq<string>)
    ensures var recent := LastLines(lines);
            |recent| == (if |lines| < 15 then |lines| else 15) && lines[|lines| - |recent|..] == recent
  {
  }

  /** The receiving end: lines waiting, the window, and everything handed on. */
  class LogWindow {
    var waiting: seq<string>
    var recent: seq<string>
    var handed: seq<string>

    constructor ()
      ensures waiting == [] && Valid() && handed == []
    {
      waiting, recent, handed := [], [], [];
    }

    /** The window is exactly the last lines received. */
    ghost predicate Valid()
      reads this
    {
      recent == LastLines(handed)
    }

    method Receive(line: string)
      requires Valid()
      modifies this`waiting
      ensures Valid() && waiting == old(waiting) + [line]
    {
      waiting := waiting + [line];
    }

    /** Push a line onto the window, dropping the oldest if it is full, and hand it on. */
    method Take(line: string)
      requires Valid()
      modifies this`recent, this`handed
      ensures Valid() && handed == old(handed) + [line]
    {
      if |recent| == RECENT {
        recent := recent[1..];
      }
      recent := recent + [line];
      handed := handed + [line];
    }

    method DrainLogs()
      requires Valid()
      modifies this
      ensures Valid()
      ensures waiting == [] && handed == old(handed) + old(waiting)
      ensures |recent| == (if |handed| < 15 then |handed| else 15) && handed[|handed| - |recent|..] == recent
    {
      while waiting != []
        invariant Valid()
        invariant handed + waiting == old(handed) + old(waiting)
        decreases |waiting|
      {
        var line := waiting[0];
        waiting := waiting[1..];
        Take(line);
      }
      LastLinesAre(handed);
    }
  }
}
