/**
 * The Jekyll side (_plugins/shiki.rb): a Liquid block that keeps its
 * stripped language tag, sends `lang;escaped-code` to one long-lived worker
 * process, reads one line back and decodes it.
 *
 * The pipe is modelled by two strings: what has been written to the
 * worker's standard input, and what the worker has printed that has not
 * been read yet.  The worker answers every complete request line it
 * receives, as `Worker.Reply` says.
 */
module Plugin {
  import opened Text
  import opened Wire
  import opened Worker

  /** What Ruby's `strip` removes: NUL, tab, line feed, vertical tab, form feed, carriage return, space. */
  predicate IsSpace(c: char) {
    c == '\0' || '\t' <= c <= '\r' || c == ' '
  }

  /** Every character of `s` is whitespace. */
  predicate AllSpace(s: string) {
    forall c :: c in s ==> IsSpace(c)
  }

  /** How many whitespace characters `lstrip` removes from the front of `s`. */
  function LeadingSpace(s: string): (n: nat)
    ensures n <= |s|
    ensures n < |s| ==> !IsSpace(s[n])
  {
    if s != [] && IsSpace(s[0]) then 1 + LeadingSpace(s[1..]) else 0
  }

  /** The characters `LeadingSpace` counts are whitespace. */
  lemma {:induction false} LeadingSpaceIsSpace(s: string)
    ensures AllSpace(s[..LeadingSpace(s)])
  {
    if s != [] && IsSpace(s[0]) {
      LeadingSpaceIsSpace(s[1..]);
      assert s[..LeadingSpace(s)] == [s[0]] + s[1..][..LeadingSpace(s[1..])];
    }
  }

  /** Whitespace in front of a text adds to its leading whitespace. */
  lemma {:induction false} LeadingSpaceAfter(a: string, u: string)
    requires AllSpace(a)
    ensures LeadingSpace(a + u) == |a| + LeadingSpace(u)
  {
    if a == [] {
      assert a + u == u;
    } else {
      assert (a + u)[0] == a[0] && (a + u)[1..] == a[1..] + u;
      LeadingSpaceAfter(a[1..], u);
    }
  }

  /** `lstrip`: the input from its first non-whitespace character on. */
  function TrimStart(s: string): (r: string)
    ensures |r| <= |s|
    ensures r == [] || !IsSpace(r[0])
  {
    s[LeadingSpace(s)..]
  }

  /** Where `rstrip` cuts `s`: just after its last non-whitespace character. */
  function ContentEnd(s: string): (n: nat)
    ensures n <= |s|
    ensures n > 0 ==> !IsSpace(s[n - 1])
  {
    if s != [] && IsSpace(s[|s| - 1]) then ContentEnd(s[..|s| - 1]) else |s|
  }

  /** What lies after `ContentEnd` is whitespace. */
  lemma {:induction false} ContentEndIsSpace(s: string)
    ensures AllSpace(s[ContentEnd(s)..])
  {
    if s != [] && IsSpace(s[|s| - 1]) {
      var n := ContentEnd(s);
      ContentEndIsSpace(s[..|s| - 1]);
      assert s[n..] == s[..|s| - 1][n..] + [s[|s| - 1]];
    }
  }

  /** Whitespace after a text leaves its content end where it was. */
  lemma {:induction false} ContentEndBefore(u: string, b: string)
    requires AllSpace(b)
    ensures ContentEnd(u + b) == ContentEnd(u)
  {
    if b == [] {
      assert u + b == u;
    } else {
      var s := u + b;
      assert s[|s| - 1] == b[|b| - 1] && s[..|s| - 1] == u + b[..|b| - 1];
      ContentEndBefore(u, b[..|b| - 1]);
    }
  }

  /** `rstrip`: the input up to its last non-whitespace character. */
  function TrimEnd(s: string): (r: string)
    ensures |r| <= |s|
    ensures r == [] || !IsSpace(r[|r| - 1])
  {
    s[..ContentEnd(s)]
  }

  /** `lang.strip` (line 7): the language with surrounding whitespace removed. */
  function Strip(s: string): (r: string)
    ensures |r| <= |s|
    ensures r == [] || (!IsSpace(r[0]) && !IsSpace(r[|r| - 1]))
  {
    var t := TrimStart(s);
    var r := TrimEnd(t);
    assert r != [] ==> r[0] == t[0];
    r
  }

  /**
   * What `strip` removes on either side is whitespace only: the result is the
   * slice of the input after its leading whitespace, with only whitespace
   * after it.
   */
  lemma StripParts(s: string)
    ensures var a, r := LeadingSpace(s), Strip(s);
      a + |r| <= |s| && s[a..a + |r|] == r && AllSpace(s[..a]) && AllSpace(s[a + |r|..])
  {
    var a := LeadingSpace(s);
    var t := s[a..];
    assert Strip(s) == t[..ContentEnd(t)];
    LeadingSpaceIsSpace(s);
    ContentEndIsSpace(t);
    SpaceAround(s, a, ContentEnd(t));
  }

  /** A slice of a suffix with whitespace after it, seen from the whole text. */
  lemma SpaceAround(s: string, a: nat, e: nat)
    requires a <= |s| && e <= |s| - a && AllSpace(s[a..][e..])
    ensures s[a..][..e] == s[a..a + e] && AllSpace(s[a + e..])
  {
    SuffixSlices(s, a, e);
  }

  lemma TrimStartSpaces(a: string, u: string)
    requires AllSpace(a)
    ensures TrimStart(a + u) == TrimStart(u)
  {
    LeadingSpaceAfter(a, u);
    assert (a + u)[|a| + LeadingSpace(u)..] == u[LeadingSpace(u)..];
  }

  lemma TrimEndSpaces(u: string, b: string)
    requires AllSpace(b)
    ensures TrimEnd(u + b) == TrimEnd(u)
  {
    ContentEndBefore(u, b);
    assert (u + b)[..ContentEnd(u)] == u[..ContentEnd(u)];
  }

  /** Stripping whitespace padding off a token gives the token back. */
  lemma StripPadded(a: string, t: string, b: string)
    requires AllSpace(a) && AllSpace(b)
    requires t == [] || (!IsSpace(t[0]) && !IsSpace(t[|t| - 1]))
    ensures Strip(a + t + b) == t
  {
    assert a + t + b == a + (t + b);
    TrimStartSpaces(a, t + b);
    if t == [] {
      assert t + b == b + [];
      TrimStartSpaces(b, []);
    } else {
      assert (t + b)[0] == t[0];
      assert TrimStart(t + b) == t + b;
      TrimEndSpaces(t, b);
    }
  }

  /** The stored language never changes when stripped again. */
  lemma StripIdempotent(s: string)
    ensures Strip(Strip(s)) == Strip(s)
  {
    var r := Strip(s);
    StripPadded([], r, []);
    assert [] + r + [] == r;
  }

  /** The label the wrapper shows (line 24). */
  function Label(lang: string): (r: string)
    ensures r == "TypeScript" <==> lang == "ts"
    ensures r != "TypeScript" ==> r == "JavaScript"
  {
    if lang == "ts" then "TypeScript" else "JavaScript"
  }

  /** The request line the plugin writes, before its terminator (line 21). */
  function RequestLine(lang: string, code: string): (r: string)
    ensures |r| == |lang| + 1 + |code| + multiset(code)['\n']
    ensures '\n' !in lang ==> '\n' !in r
  {
    lang + ";" + Escape(code)
  }

  /**
   * Everything `shiki.write` sends for one block: the request line and one
   * terminator, which is the frame's only one when the language has none.
   */
  function Frame(lang: string, code: string): (f: string)
    ensures |f| > 0 && f[|f| - 1] == '\n'
    ensures '\n' !in lang ==> '\n' !in f[..|f| - 1]
  {
    var line := RequestLine(lang, code);
    assert (line + "\n")[..|line|] == line;
    line + "\n"
  }

  /** Without a terminator in the language the worker reads the frame as exactly the request line. */
  lemma FrameLines(lang: string, code: string)
    requires '\n' !in lang
    ensures Lines(Frame(lang, code)) == [RequestLine(lang, code)]
  {
    LinesOfLine(RequestLine(lang, code));
  }

  /** The frame is one line to the worker exactly when the language holds no terminator. */
  lemma FrameIsOneLine(lang: string, code: string)
    ensures |Lines(Frame(lang, code))| == 1 <==> '\n' !in lang
  {
    var f := Frame(lang, code);
    if '\n' !in lang {
      FrameLines(lang, code);
    } else {
      var i := Find(f, '\n');
      var j := Find(lang, '\n');
      assert f[j] == '\n';
      assert i < |lang|;
      LinesStep(f, i);
      assert f[i + 1..] != [];
    }
  }

  /**
   * The request round trip: with a language free of `;`, the worker reads
   * back the language and the code with every backslash-`n` turned into a
   * terminator, which is the original code exactly when it had no
   * backslash-`n` pair.
   */
  lemma RoundTripRequest(lang: string, code: string)
    requires ';' !in lang
    ensures DecodeRequest(RequestLine(lang, code)) == Request(lang, Unescape(code))
    ensures DecodeRequest(RequestLine(lang, code)) == Request(lang, code) <==> NoEscapePair(code)
  {
    var line := RequestLine(lang, code);
    assert line[|lang|] == ';';
    var r := DecodeRequest(line);
    assert |r.lang| == |lang|;
    assert r.lang == line[..|lang|] == lang;
    assert line[|lang| + 1..] == Escape(code);
    EscapeThenUnescape(code);
    UnescapeIdentity(code);
  }

  /** A literal backslash-`n` in the code reaches the highlighter as a line break. */
  lemma LossyRequest()
    ensures DecodeRequest(RequestLine("ts", "\\nx")) == Request("ts", "\nx")
  {
    RoundTripRequest("ts", "\\nx");
    LossyRoundTrip();
    EscapeThenUnescape("\\nx");
  }

  /** The worker cuts a request line at its first `;`. */
  lemma DecodeAtFirstSeparator(line: string, i: nat)
    requires i < |line| && line[i] == ';' && forall k :: 0 <= k < i ==> line[k] != ';'
    ensures DecodeRequest(line).lang == line[..i] && DecodeRequest(line).code == Unescape(line[i + 1..])
  {
  }

  /**
   * A `;` in the language moves the rest of the language into the code
   * field: the worker sees only the part before the first `;` as language.
   */
  lemma SeparatorInLanguage(head: string, tail: string, code: string)
    requires ';' !in head
    ensures var r := DecodeRequest(RequestLine(head + ";" + tail, code));
      r.lang == head && r.code == Unescape(tail + ";" + Escape(code))
  {
    var line := RequestLine(head + ";" + tail, code);
    var x, e := head + ";", Escape(code);
    ConcatAssoc(x + tail, ";", e);
    ConcatAssoc(x, tail, ";" + e);
    ConcatAssoc(tail, ";", e);
    assert line == x + (tail + ";" + e);
    DecodeAtFirstSeparator(line, |head|);
    assert line[..|head|] == head;
    assert line[|head| + 1..] == tail + ";" + e;
  }

  /**
   * The whole exchange for one block: when neither the code nor the HTML
   * holds a backslash-`n` pair, the plugin gets the engine's HTML for
   * exactly its own language and code, with the terminator `readline` keeps.
   */
  lemma HighlightRoundTrip(engine: Engine, lang: string, code: string)
    requires ';' !in lang
    requires NoEscapePair(code) && NoEscapePair(engine(lang, code))
    ensures Unescape(Respond(engine, RequestLine(lang, code))) == engine(lang, code) + "\n"
  {
    RoundTripRequest(lang, code);
    UnescapeIdentity(engine(lang, code));
  }

  /** `s` ends with `t`. */
  predicate EndsWith(s: string, t: string) {
    |t| <= |s| && s[|s| - |t|..] == t
  }

  /**
   * The open pipe to the worker, as the `@@shiki` object: the command it was
   * started with, everything written to the worker's standard input, and
   * what the worker printed that has not been read yet.
   */
  datatype Pipe = Pipe(command: seq<string>, written: string, pending: string)

  /** The command `IO.popen` starts. */
  const WorkerCommand: seq<string> := ["node", "_scripts/shiki.js"]

  /** A freshly started worker: nothing sent, nothing printed. */
  const Spawned: Pipe := Pipe(WorkerCommand, [], [])

  /**
   * What a pipe holds: only complete lines were written, the worker has
   * answered each of them, and what is unread is the tail of its output.
   */
  ghost predicate PipeHolds(engine: Engine, p: Pipe) {
    && p.command == WorkerCommand
    && (p.written == [] || p.written[|p.written| - 1] == '\n')
    && EndsWith(Reply(engine, Lines(p.written)), p.pending)
  }

  /**
   * The pipe after `frame` is written, the worker prints `answer`, and
   * `readline` takes one line off what is unread: the pipe afterwards and
   * the line read.  An answer that ends a line guarantees a whole line.
   */
  function Deliver(p: Pipe, frame: string, answer: string): (r: (Pipe, string))
    ensures r.0.command == p.command && r.0.written == p.written + frame
    ensures r.1 + r.0.pending == p.pending + answer
    ensures answer != [] && answer[|answer| - 1] == '\n' ==>
      r.1 != [] && r.1[|r.1| - 1] == '\n' && '\n' !in r.1[..|r.1| - 1]
  {
    var stream := p.pending + answer;
    assert answer != [] && answer[|answer| - 1] == '\n' ==> stream[|stream| - 1] == '\n';
    match ReadLine(stream)
    case None => (Pipe(p.command, p.written + frame, []), [])
    case Some(split) => (Pipe(p.command, p.written + frame, split.1), split.0)
  }

  /** With nothing unread, an answer that is one line is read whole and nothing stays unread. */
  lemma DeliverOneLine(p: Pipe, frame: string, answer: string)
    requires p.pending == []
    requires answer != [] && answer[|answer| - 1] == '\n' && '\n' !in answer[..|answer| - 1]
    ensures var r := Deliver(p, frame, answer); r.1 == answer && r.0.pending == []
  {
    ReadLineOfLine(answer, []);
    assert p.pending + answer == answer + [];
  }

  /** From an empty pipe the reader takes the first answer line and leaves the rest unread. */
  lemma DeliverFirstLine(p: Pipe, frame: string, line: string, rest: string)
    requires p.pending == []
    requires line != [] && line[|line| - 1] == '\n' && '\n' !in line[..|line| - 1]
    ensures var r := Deliver(p, frame, line + rest); r.1 == line && r.0.pending == rest
  {
    ReadLineOfLine(line, rest);
    assert p.pending + (line + rest) == line + rest;
  }

  /** Reading a line off the tail of an output leaves a tail of the output extended by the answer. */
  lemma DeliverKeepsTail(before: string, p: Pipe, frame: string, answer: string)
    requires EndsWith(before, p.pending)
    ensures EndsWith(before + answer, Deliver(p, frame, answer).0.pending)
  {
    var r := Deliver(p, frame, answer);
    var done := before[..|before| - |p.pending|];
    assert before == done + p.pending;
    ConcatAssoc(done, p.pending, answer);
    ConcatAssoc(done, r.1, r.0.pending);
    var after := before + answer;
    assert after == (done + r.1) + r.0.pending;
    assert after[|after| - |r.0.pending|..] == r.0.pending;
  }

  /** The pipe `@@shiki ||= IO.popen(...)` (line 14) yields: the open one, or a newly started worker. */
  function OrSpawn(shiki: Option<Pipe>): (p: Pipe)
    ensures shiki.Some? ==> p == shiki.value
    ensures shiki.None? ==> p.command == WorkerCommand && p.written == [] && p.pending == []
  {
    if shiki.Some? then shiki.value else Spawned
  }

  /** Whichever pipe `||=` yields holds what its worker printed. */
  lemma OrSpawnHolds(engine: Engine, shiki: Option<Pipe>)
    requires shiki.Some? ==> PipeHolds(engine, shiki.value)
    ensures PipeHolds(engine, OrSpawn(shiki))
  {
    if shiki.None? {
      assert Reply(engine, Lines([])) == [];
    }
  }

  /**
   * One `with_shiki` block on an open pipe (lines 20-23): the frame goes out
   * and the worker answers each line of it.
   */
  function Send(engine: Engine, p: Pipe, lang: string, code: string): (r: (Pipe, string))
    ensures r.0.command == p.command && r.0.written == p.written + Frame(lang, code)
    ensures r.1 != [] && r.1[|r.1| - 1] == '\n' && '\n' !in r.1[..|r.1| - 1]
    ensures r.1 + r.0.pending == p.pending + Reply(engine, Lines(Frame(lang, code)))
  {
    var frame := Frame(lang, code);
    ReplyAfterWrite(engine, [], frame);
    Deliver(p, frame, Reply(engine, Lines(frame)))
  }

  /** An exchange keeps the pipe consistent with the worker's output. */
  lemma SendKeepsPipe(engine: Engine, p: Pipe, lang: string, code: string)
    requires PipeHolds(engine, p)
    ensures PipeHolds(engine, Send(engine, p, lang, code).0)
  {
    var frame := Frame(lang, code);
    ReplyAfterWrite(engine, p.written, frame);
    DeliverKeepsTail(Reply(engine, Lines(p.written)), p, frame, Reply(engine, Lines(frame)));
  }

  /**
   * In step: when nothing was left unread and the language holds no
   * terminator, the line read is the worker's answer to this very request,
   * and nothing stays unread.
   */
  lemma SendInStep(engine: Engine, p: Pipe, lang: string, code: string)
    requires p.pending == [] && '\n' !in lang
    ensures var r := Send(engine, p, lang, code);
      r.0.pending == [] && r.1 == Respond(engine, RequestLine(lang, code))
  {
    AnswerToFrame(engine, lang, code);
    DeliverOneLine(p, Frame(lang, code), Reply(engine, Lines(Frame(lang, code))));
  }

  /**
   * Out of step: a language holding a terminator splits the frame into
   * several lines and the worker answers once per line.  The plugin reads
   * only the answer to the first piece; the answers to the others stay
   * unread for the next block.
   */
  lemma SendOutOfStep(engine: Engine, p: Pipe, lang: string, code: string)
    requires p.pending == [] && '\n' in lang
    ensures var lines, r := Lines(Frame(lang, code)), Send(engine, p, lang, code);
      && |lines| >= 2
      && r.1 == Respond(engine, lines[0])
      && r.0.pending == Reply(engine, lines[1..])
      && r.0.pending != []
  {
    var frame := Frame(lang, code);
    FrameIsOneLine(lang, code);
    var lines := Lines(frame);
    ReplySplits(engine, lines);
    ReplyEndsLine(engine, lines[1..]);
    DeliverFirstLine(p, frame, Respond(engine, lines[0]), Reply(engine, lines[1..]));
  }

  /**
   * Stale read: when an earlier block left whole lines unread, this block
   * reads the first of them, an answer to an earlier request, and its own
   * answer joins the end of what stays unread.
   */
  lemma SendStale(engine: Engine, p: Pipe, lang: string, code: string)
    requires p.pending != [] && p.pending[|p.pending| - 1] == '\n'
    ensures var r, first := Send(engine, p, lang, code), ReadLine(p.pending);
      && first.Some?
      && r.1 == first.value.0
      && r.0.pending == first.value.1 + Reply(engine, Lines(Frame(lang, code)))
  {
    DeliverStale(p, Frame(lang, code), Reply(engine, Lines(Frame(lang, code))));
  }

  /** With whole lines unread, the reader takes the first of them and queues the answer behind the rest. */
  lemma DeliverStale(p: Pipe, frame: string, answer: string)
    requires p.pending != [] && p.pending[|p.pending| - 1] == '\n'
    ensures var r, first := Deliver(p, frame, answer), ReadLine(p.pending);
      first.Some? && r.1 == first.value.0 && r.0.pending == first.value.1 + answer
  {
    assert '\n' in p.pending;
    var split := ReadLine(p.pending).value;
    ConcatAssoc(split.0, split.1, answer);
    ReadLineOfLine(split.0, split.1 + answer);
  }

  /** The worker answers the first request line first, then the others. */
  lemma ReplySplits(engine: Engine, lines: seq<string>)
    requires |lines| >= 2
    ensures lines[1..] != []
    ensures Reply(engine, lines) == Respond(engine, lines[0]) + Reply(engine, lines[1..])
  {
  }

  /** Writing a frame after complete lines adds the worker's answers to that frame to its output. */
  lemma ReplyAfterWrite(engine: Engine, written: string, frame: string)
    requires written == [] || written[|written| - 1] == '\n'
    requires frame != []
    ensures Reply(engine, Lines(written + frame)) == Reply(engine, Lines(written)) + Reply(engine, Lines(frame))
    ensures var answer := Reply(engine, Lines(frame)); answer != [] && answer[|answer| - 1] == '\n'
  {
    LinesAppend(written, frame);
    ReplyEndsLine(engine, Lines(frame));
    ReplyAppend(engine, Lines(written), Lines(frame));
  }

  /** For a language without terminator the worker's whole answer to a frame is one response line. */
  lemma AnswerToFrame(engine: Engine, lang: string, code: string)
    requires '\n' !in lang
    ensures Reply(engine, Lines(Frame(lang, code))) == Respond(engine, RequestLine(lang, code))
  {
    FrameLines(lang, code);
    var lines := [RequestLine(lang, code)];
    assert lines[1..] == [];
    assert Reply(engine, lines) == Respond(engine, lines[0]) + [];
  }

  /**
   * The class variable `@@shiki` (line 10): no pipe until the first block
   * needs one, then the same pipe for every block after.
   */
  class WorkerHandle {
    const engine: Engine
    var shiki: Option<Pipe>

    /** An open pipe holds what its worker printed. */
    ghost predicate Valid()
      reads this
    {
      shiki.Some? ==> PipeHolds(engine, shiki.value)
    }

    /** Line 10: no worker until the first block needs one. */
    constructor (engine: Engine)
      ensures Valid() && this.engine == engine
      ensures shiki.None?
    {
      this.engine := engine;
      shiki := None;
    }

    /** `@@shiki ||= IO.popen(...)` (line 14): start the worker on first use, reuse it after. */
    method Open()
      requires Valid()
      modifies this
      ensures Valid()
      ensures shiki == Some(OrSpawn(old(shiki)))
    {
      if shiki.None? {
        OrSpawnHolds(engine, shiki);
        shiki := Some(Spawned);
      }
    }

    /** The `with_shiki` block of `render` (lines 20-23): one request out, one line back, decoded. */
    method Exchange(lang: string, code: string) returns (output: string)
      requires Valid() && shiki.Some?
      modifies this
      ensures Valid()
      ensures var r := Send(engine, old(shiki).value, lang, code);
        shiki == Some(r.0) && output == Unescape(r.1)
    {
      SendKeepsPipe(engine, shiki.value, lang, code);
      var r := Send(engine, shiki.value, lang, code);
      shiki := Some(r.0);
      output := Unescape(r.1);
    }
  }

  /** What the wrapper markup (lines 25-41) interpolates: the language, its label and the HTML. */
  datatype Rendered = Rendered(lang: string, labelText: string, html: string)

  /** `Jekyll::ShikiHighlightBlock`. */
  class HighlightBlock {
    const lang: string

    /** `initialize` (lines 5-8): keeps the stripped markup as the language. */
    constructor (markup: string)
      ensures lang == Strip(markup)
    {
      lang := Strip(markup);
    }

    /** `render` (lines 18-42), for the block's body `code`. */
    method Render(handle: WorkerHandle, code: string) returns (r: Rendered)
      requires handle.Valid()
      modifies handle
      ensures handle.Valid()
      ensures r.lang == lang && r.labelText == Label(lang)
      ensures var s := Send(handle.engine, OrSpawn(old(handle.shiki)), lang, code);
        handle.shiki == Some(s.0) && r.html == Unescape(s.1)
    {
      handle.Open();
      var output := handle.Exchange(lang, code);
      r := Rendered(lang, Label(lang), output);
    }
  }
}
