/**
 * The line protocol between the Jekyll plugin and the Node worker.
 *
 * The channel is line-delimited, so both directions replace every real line
 * terminator with the two characters backslash and `n` before writing, and
 * the reader turns every backslash-`n` pair back into a terminator.  Literal
 * backslashes are not escaped, which makes the pair ambiguous: that is the
 * lossy case the lemmas below pin down.
 */
module Wire {
  import opened Text

  /** The two characters that stand for one line terminator on the wire. */
  const EscapedNewline: string := "\\n"

  /** `s` holds a literal backslash-`n` pair starting at `i`. */
  predicate PairAt(s: string, i: int) {
    0 <= i && i + 1 < |s| && s[i] == '\\' && s[i + 1] == 'n'
  }

  predicate NoEscapePair(s: string) {
    forall i :: 0 <= i < |s| ==> !PairAt(s, i)
  }

  /** `gsub("\n", '\n')` / `replace(/\n/g, '\\n')`: each terminator becomes backslash-`n`. */
  function Escape(s: string): (r: string)
    ensures |r| == |s| + multiset(s)['\n']
    ensures '\n' !in r
  {
    if s == [] then []
    else
      assert s == [s[0]] + s[1..];
      (if s[0] == '\n' then EscapedNewline else [s[0]]) + Escape(s[1..])
  }

  /**
   * `replace(/\\n/g, '\n')` / `gsub('\n', "\n")`: scanning left to right,
   * each backslash-`n` pair becomes one terminator; a backslash not followed
   * by `n` is kept.
   */
  function Unescape(s: string): (r: string)
    ensures |r| <= |s|
  {
    if PairAt(s, 0) then "\n" + Unescape(s[2..])
    else if s == [] then []
    else [s[0]] + Unescape(s[1..])
  }

  /** Escaping works character by character. */
  lemma {:induction false} EscapeAppend(a: string, b: string)
    ensures Escape(a + b) == Escape(a) + Escape(b)
  {
    if a != [] {
      assert (a + b)[0] == a[0] && (a + b)[1..] == a[1..] + b;
      EscapeAppend(a[1..], b);
    } else {
      assert a + b == b;
    }
  }

  /** Text without terminators goes on the wire unchanged, backslashes included. */
  lemma {:induction false} EscapeIdentity(s: string)
    requires '\n' !in s
    ensures Escape(s) == s
  {
    if s != [] {
      assert '\n' !in s[1..];
      EscapeIdentity(s[1..]);
    }
  }

  /** Escaping is not injective: a terminator and a literal backslash-`n` look the same. */
  lemma EscapeConflates()
    ensures Escape("\n") == Escape("\\n") == "\\n"
  {
    assert Escape("\n") == EscapedNewline + Escape([]);
    assert "\\n"[1..] == "n";
    assert Escape("n") == "n" + Escape([]);
  }

  /** Unescaping a concatenation splits unless the cut falls inside a backslash-`n` pair. */
  lemma {:induction false} UnescapeAppend(a: string, b: string)
    requires !(a != [] && a[|a| - 1] == '\\' && b != [] && b[0] == 'n')
    ensures Unescape(a + b) == Unescape(a) + Unescape(b)
  {
    if a == [] {
      assert a + b == b;
    } else if PairAt(a, 0) {
      assert PairAt(a + b, 0);
      assert (a + b)[2..] == a[2..] + b;
      UnescapeAppend(a[2..], b);
    } else {
      assert !PairAt(a + b, 0);
      assert (a + b)[1..] == a[1..] + b;
      UnescapeAppend(a[1..], b);
    }
  }

  /** The terminator Ruby's `readline` keeps survives decoding. */
  lemma UnescapeKeepsTerminator(s: string)
    ensures Unescape(s + "\n") == Unescape(s) + "\n"
  {
    UnescapeAppend(s, "\n");
    assert Unescape("\n") == "\n" + Unescape([]);
  }

  /** Decoding shortens the text exactly when it holds a backslash-`n` pair. */
  lemma {:induction false} UnescapeShrinks(s: string, i: int)
    requires PairAt(s, i)
    ensures |Unescape(s)| < |s|
  {
    if !PairAt(s, 0) {
      assert PairAt(s[1..], i - 1);
      UnescapeShrinks(s[1..], i - 1);
    }
  }

  /** Decoding changes nothing exactly when there is no backslash-`n` pair. */
  lemma {:induction false} UnescapeIdentity(s: string)
    ensures Unescape(s) == s <==> NoEscapePair(s)
  {
    if NoEscapePair(s) {
      UnescapeNoPair(s);
    } else {
      var i :| PairAt(s, i);
      UnescapeShrinks(s, i);
    }
  }

  lemma {:induction false} UnescapeNoPair(s: string)
    requires NoEscapePair(s)
    ensures Unescape(s) == s
  {
    if s != [] {
      assert !PairAt(s, 0);
      forall i ensures !PairAt(s[1..], i) {
        if PairAt(s[1..], i) {
          assert PairAt(s, i + 1);
        }
      }
      UnescapeNoPair(s[1..]);
    }
  }

  /**
   * Escaping then unescaping gives the same as unescaping the original: every
   * escaped terminator comes back, and every literal backslash-`n` pair in the
   * original turns into a terminator too.
   */
  lemma {:induction false} EscapeThenUnescape(s: string)
    ensures Unescape(Escape(s)) == Unescape(s)
  {
    if s == [] {
    } else if s[0] == '\n' {
      var e := Escape(s);
      assert e == EscapedNewline + Escape(s[1..]);
      assert PairAt(e, 0) && e[2..] == Escape(s[1..]);
      assert !PairAt(s, 0);
      EscapeThenUnescape(s[1..]);
    } else if PairAt(s, 0) {
      var e := Escape(s);
      assert e == [s[0]] + Escape(s[1..]);
      assert Escape(s[1..]) == [s[1]] + Escape(s[2..]) by {
        assert s[1..][0] == s[1] && s[1..][1..] == s[2..];
      }
      assert PairAt(e, 0) && e[2..] == Escape(s[2..]);
      EscapeThenUnescape(s[2..]);
    } else {
      var e := Escape(s);
      assert e == [s[0]] + Escape(s[1..]);
      if |s| > 1 && s[0] == '\\' {
        var t := s[1..];
        assert Escape(t) == (if t[0] == '\n' then EscapedNewline else [t[0]]) + Escape(t[1..]);
        assert Escape(t)[0] != 'n';
      }
      assert !PairAt(e, 0);
      assert e[1..] == Escape(s[1..]);
      EscapeThenUnescape(s[1..]);
    }
  }

  /** The exact round trip: decoding an escaped text restores it iff it has no backslash-`n` pair. */
  lemma RoundTrip(s: string)
    ensures Unescape(Escape(s)) == s <==> NoEscapePair(s)
  {
    EscapeThenUnescape(s);
    UnescapeIdentity(s);
  }

  /**
   * The response round trip: HTML without a backslash-`n` pair, escaped and
   * terminated by the worker, decodes to itself with the terminator kept.
   */
  lemma ResponseRoundTrip(h: string)
    requires NoEscapePair(h)
    ensures Unescape(Escape(h) + "\n") == h + "\n"
  {
    UnescapeKeepsTerminator(Escape(h));
    RoundTrip(h);
  }

  /** The lossy case: a literal backslash-`n` in the original comes back as a terminator. */
  lemma LossyRoundTrip()
    ensures Unescape(Escape("\\nx")) == "\nx"
    ensures Unescape(Escape("\\nx")) != "\\nx"
  {
    EscapeThenUnescape("\\nx");
    assert PairAt("\\nx", 0);
    assert "\\nx"[2..] == "x";
    assert Unescape("x") == "x" + Unescape([]);
  }

  /**
   * How Node's `readline` interface splits a stream: at each `'\n'`, the
   * terminator dropped; a final unterminated piece is a line of its own.
   */
  function Lines(s: string): (ls: seq<string>)
    ensures forall k :: 0 <= k < |ls| ==> '\n' !in ls[k]
    ensures s != [] <==> ls != []
    ensures s != [] && '\n' !in s ==> ls == [s]
    decreases |s|
  {
    if s == [] then []
    else
      var i := Find(s, '\n');
      if i == |s| then [s] else [s[..i]] + Lines(s[i + 1..])
  }

  /** A stream of complete lines followed by more text splits into both parts' lines. */
  lemma {:induction false} LinesAppend(w: string, x: string)
    requires w == [] || w[|w| - 1] == '\n'
    ensures Lines(w + x) == Lines(w) + Lines(x)
    decreases |w|
  {
    if w == [] {
      assert w + x == x;
    } else {
      var i := Find(w, '\n');
      var rest := w[i + 1..];
      FirstLineOfAppend(w, x, i);
      LinesStep(w + x, i);
      LinesAppend(rest, x);
      LinesStep(w, i);
      ConcatAssoc([w[..i]], Lines(rest), Lines(x));
    }
  }

  lemma FirstLineOfAppend(w: string, x: string, i: nat)
    requires w != [] && w[|w| - 1] == '\n' && i == Find(w, '\n')
    ensures i < |w| && w[i] == '\n' && (w + x)[i] == '\n'
    ensures (w + x)[..i] == w[..i] && (w + x)[i + 1..] == w[i + 1..] + x
    ensures forall k :: 0 <= k < i ==> (w + x)[k] != '\n'
    ensures var rest := w[i + 1..]; rest == [] || rest[|rest| - 1] == '\n'
  {
    AppendSlices(w, x, i);
  }

  /** The first line of a stream ends at its first terminator. */
  lemma LinesStep(s: string, i: nat)
    requires i < |s| && s[i] == '\n'
    requires forall k :: 0 <= k < i ==> s[k] != '\n'
    ensures Lines(s) == [s[..i]] + Lines(s[i + 1..])
  {
    FindFirst(s, '\n', i);
  }

  /** `Find` is determined by its position and the absence of earlier occurrences. */
  lemma FindFirst(s: string, c: char, i: nat)
    requires i < |s| && s[i] == c
    requires forall k :: 0 <= k < i ==> s[k] != c
    ensures Find(s, c) == i
  {
  }

  /** One terminated line that holds no other terminator is one line to the reader. */
  lemma LinesOfLine(x: string)
    requires '\n' !in x
    ensures Lines(x + "\n") == [x]
  {
    var s := x + "\n";
    assert s[..|x|] == x;
    FindFirst(s, '\n', |x|);
    assert s[|x| + 1..] == [];
  }

  /**
   * Ruby's `IO#readline`: the text up to and including the first `'\n'`, or
   * what is left at the end of the stream; `None` stands for `EOFError`.
   */
  function ReadLine(s: string): (r: Option<(string, string)>)
    ensures r.None? <==> s == []
    ensures r.Some? ==> r.value.0 + r.value.1 == s && r.value.0 != []
    ensures r.Some? ==> '\n' !in r.value.0[..|r.value.0| - 1]
    ensures r.Some? && '\n' in s ==> r.value.0[|r.value.0| - 1] == '\n'
    ensures r.Some? && '\n' !in s ==> r.value.0 == s && r.value.1 == []
  {
    if s == [] then None
    else
      var i := Find(s, '\n');
      if i == |s| then Some((s, []))
      else
        assert s[..i + 1][..i] == s[..i];
        Some((s[..i + 1], s[i + 1..]))
  }

  /** A response that is exactly one terminated line is read back whole, the rest left in the pipe. */
  lemma ReadLineOfLine(x: string, rest: string)
    requires x != [] && x[|x| - 1] == '\n' && '\n' !in x[..|x| - 1]
    ensures ReadLine(x + rest) == Some((x, rest))
  {
    var s := x + rest;
    assert s[..|x| - 1] == x[..|x| - 1];
    FindFirst(s, '\n', |x| - 1);
    assert s[..|x|] == x;
    assert s[|x|..] == rest;
  }
}
