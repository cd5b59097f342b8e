/**
 * The Node highlighting worker (_scripts/shiki.js): it reads one request
 * line at a time, splits it at the first `;` into a language and an escaped
 * code field, runs the highlighter, and prints the escaped HTML as one line.
 *
 * The highlighter itself (shiki-twoslash's `runTwoSlash` followed by
 * `renderCodeToHTML`) is not modelled: it is the `Engine` parameter.
 */
module Worker {
  import opened Text
  import opened Wire

  /** What the highlighter makes of a language tag and a piece of code. */
  type Engine = (string, string) -> string

  datatype Request = Request(lang: string, code: string)

  /** JavaScript's `indexOf` for one character: -1 when it does not occur. */
  function IndexOf(s: string, c: char): (i: int)
    ensures -1 <= i < |s|
    ensures i == -1 <==> c !in s
    ensures 0 <= i ==> s[i] == c && forall k :: 0 <= k < i ==> s[k] != c
  {
    var k := Find(s, c);
    if k == |s| then -1 else k
  }

  /** An index as JavaScript's `substring` uses it: clamped to `0..n`. */
  function Clamp(x: int, n: nat): (r: nat)
    ensures r <= n
  {
    if x < 0 then 0 else if x > n then n else x
  }

  /**
   * JavaScript's `substring(start, end)`: both ends clamped to the string,
   * then swapped when out of order, so an end below zero takes everything
   * before the start.
   */
  function Substring(s: string, start: int, end: int): (r: string)
    ensures |r| <= |s|
    ensures 0 <= start <= end <= |s| ==> r == s[start..end]
    ensures end <= 0 ==> r == s[..Clamp(start, |s|)]
    ensures start <= 0 && |s| <= end ==> r == s
  {
    var a := Clamp(start, |s|);
    var b := Clamp(end, |s|);
    if a <= b then s[a..b] else s[b..a]
  }

  /** One request line as the worker reads it (lines 9-11). */
  function DecodeRequest(line: string): (r: Request)
    ensures ';' !in r.lang
    ensures ';' in line ==>
      |r.lang| < |line| && line[|r.lang|] == ';' && r.lang == line[..|r.lang|] &&
      r.code == Unescape(line[|r.lang| + 1..])
    ensures ';' !in line ==> r.lang == [] && r.code == Unescape(line)
  {
    var sep := IndexOf(line, ';');
    var lang := Substring(line, 0, sep);
    var code := Unescape(Substring(line, sep + 1, |line|));
    assert sep == -1 ==> lang == [] && Substring(line, sep + 1, |line|) == line;
    assert 0 <= sep ==> lang == line[..sep];
    assert 0 <= sep ==> Substring(line, sep + 1, |line|) == line[sep + 1..];
    Request(lang, code)
  }

  /**
   * What the worker prints for one request line (lines 12-18): the engine's
   * HTML with its terminators escaped, then the terminator `console.log`
   * adds.  The result is exactly one line, and decoding it gives back the
   * HTML up to the backslash-`n` ambiguity.
   */
  function Respond(engine: Engine, line: string): (r: string)
    ensures |r| > 0 && r[|r| - 1] == '\n' && '\n' !in r[..|r| - 1]
    ensures var req := DecodeRequest(line);
      Unescape(r) == Unescape(engine(req.lang, req.code)) + "\n"
  {
    var req := DecodeRequest(line);
    var html := engine(req.lang, req.code);
    EscapeThenUnescape(html);
    UnescapeKeepsTerminator(Escape(html));
    assert (Escape(html) + "\n")[..|Escape(html)|] == Escape(html);
    Escape(html) + "\n"
  }

  /** Everything the worker prints for a sequence of request lines: one line per request. */
  function Reply(engine: Engine, lines: seq<string>): (out: string)
    ensures |Lines(out)| == |lines|
  {
    if lines == [] then []
    else
      var r := Respond(engine, lines[0]);
      var rest := Reply(engine, lines[1..]);
      LinesAppend(r, rest);
      assert r[..|r| - 1] + "\n" == r;
      LinesOfLine(r[..|r| - 1]);
      r + rest
  }

  /** Output for at least one request ends with a terminator. */
  lemma {:induction false} ReplyEndsLine(engine: Engine, lines: seq<string>)
    requires lines != []
    ensures var out := Reply(engine, lines); out != [] && out[|out| - 1] == '\n'
  {
    if lines[1..] != [] {
      ReplyEndsLine(engine, lines[1..]);
    }
  }

  /** The worker's output for two batches of lines is the output for each in turn. */
  lemma {:induction false} ReplyAppend(engine: Engine, a: seq<string>, b: seq<string>)
    ensures Reply(engine, a + b) == Reply(engine, a) + Reply(engine, b)
  {
    if a == [] {
      assert a + b == b;
    } else {
      assert (a + b)[0] == a[0] && (a + b)[1..] == a[1..] + b;
      ReplyAppend(engine, a[1..], b);
      ConcatAssoc(Respond(engine, a[0]), Reply(engine, a[1..]), Reply(engine, b));
    }
  }

  /**
   * The `for await` loop (lines 8-19): one response per request line, in
   * order; the k-th response is the answer to the k-th request, and all
   * of them printed one after another are the worker's output `Reply`.
   */
  method Serve(engine: Engine, lines: seq<string>) returns (out: seq<string>)
    ensures |out| == |lines|
    ensures forall k :: 0 <= k < |lines| ==> out[k] == Respond(engine, lines[k])
    ensures Flatten(out) == Reply(engine, lines)
  {
    out := [];
    for k := 0 to |lines|
      invariant |out| == k
      invariant forall j :: 0 <= j < k ==> out[j] == Respond(engine, lines[j])
    {
      var line := lines[k];
      var sep := IndexOf(line, ';');
      var lang := Substring(line, 0, sep);
      var code := Unescape(Substring(line, sep + 1, |line|));
      var output := engine(lang, code);
      out := out + [Escape(output) + "\n"];
    }
    PrintedResponses(engine, lines, out);
  }

  /** Responses printed in the order of their requests are the worker's output. */
  lemma {:induction false} PrintedResponses(engine: Engine, lines: seq<string>, out: seq<string>)
    requires |out| == |lines|
    requires forall k :: 0 <= k < |lines| ==> out[k] == Respond(engine, lines[k])
    ensures Flatten(out) == Reply(engine, lines)
  {
    if lines != [] {
      assert forall k :: 0 <= k < |lines| - 1 ==> out[1..][k] == out[k + 1] && lines[1..][k] == lines[k + 1];
      PrintedResponses(engine, lines[1..], out[1..]);
    }
  }
}
