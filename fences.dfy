/**
 * The `:posts, :pre_render` hook (_plugins/shiki.rb, lines 48-50): before a
 * post is rendered, every fenced block opened as ```` ```lang twoslash ````
 * is rewritten into a `{% shiki lang %}` ... `{% endshiki %}` Liquid block.
 *
 * The pattern is ``/```(\w+) twoslash([^\0]*?)\n?```/`` and `gsub` applies
 * it left to right, never overlapping.  Only this one pattern is modelled,
 * written out as the matcher it compiles to: the word run is the whole run
 * of ASCII word characters, the body is the shortest run of non-NUL
 * characters after which `\n?```` matches, and one line terminator right
 * before the closing fence is dropped.
 */
module Fences {
  import opened Text
  import Plugin

  /** The three backticks that open and close a block. */
  const Fence: string := "```"

  /** What must follow the language for the block to go to the highlighter. */
  const Marker: string := " twoslash"

  /** Ruby's `\w`: an ASCII letter, digit or underscore. */
  predicate IsWordChar(c: char) {
    'a' <= c <= 'z' || 'A' <= c <= 'Z' || '0' <= c <= '9' || c == '_'
  }

  predicate AllWord(s: string) {
    forall k :: 0 <= k < |s| ==> IsWordChar(s[k])
  }

  /** The length of the run of word characters `s` starts with. */
  function WordRun(s: string): (n: nat)
    ensures n <= |s|
  {
    if s != [] && IsWordChar(s[0]) then 1 + WordRun(s[1..]) else 0
  }

  /** `\w+` is greedy: the run holds only word characters and stops before the next one that is not. */
  lemma {:induction false} WordRunMaximal(s: string)
    ensures AllWord(s[..WordRun(s)])
    ensures WordRun(s) < |s| ==> !IsWordChar(s[WordRun(s)])
  {
    if s != [] && IsWordChar(s[0]) {
      WordRunMaximal(s[1..]);
      var n := WordRun(s);
      assert s[..n] == [s[0]] + s[1..][..n - 1];
    }
  }

  /** `\n?```` matches at the start of `s`. */
  predicate ClosesHere(s: string) {
    StartsWith(s, Fence) || StartsWith(s, "\n" + Fence)
  }

  /** No closing `\n?```` starts before position `n` of `s`. */
  predicate OpenBefore(s: string, n: nat)
    requires n <= |s|
  {
    forall k :: 0 <= k < n ==> !ClosesHere(s[k..])
  }

  /** No NUL before position `n` of `s`. */
  predicate NoNulBefore(s: string, n: nat)
    requires n <= |s|
  {
    forall k :: 0 <= k < n ==> s[k] != '\0'
  }

  /** The first `n` characters of `s` are the lazy body: NUL-free, closed right after, and not before. */
  predicate IsBody(s: string, n: nat) {
    n <= |s| && ClosesHere(s[n..]) && OpenBefore(s, n) && NoNulBefore(s, n)
  }

  /** No closer can be reached from the start of `s` without crossing a NUL. */
  predicate NoBody(s: string) {
    forall k :: 0 <= k <= |s| && NoNulBefore(s, k) ==> !ClosesHere(s[k..])
  }

  /**
   * The lazy body `([^\0]*?)` followed by `\n?````: the length of the
   * shortest run of non-NUL characters after which the closer matches, or
   * `None` when a NUL or the end of the text comes first.
   */
  function BodyLength(s: string): (n: Option<nat>)
    ensures n.Some? ==> n.value <= |s|
    decreases |s|
  {
    if ClosesHere(s) then Some(0)
    else if s == [] || s[0] == '\0' then None
    else
      match BodyLength(s[1..])
      case None => None
      case Some(k) => Some(k + 1)
  }

  /** `BodyLength` finds the lazy body exactly when there is one. */
  lemma {:induction false} BodyLengthSpec(s: string)
    ensures BodyLength(s).Some? ==> IsBody(s, BodyLength(s).value)
    ensures BodyLength(s).None? ==> NoBody(s)
    decreases |s|
  {
    if ClosesHere(s) {
      assert s[0..] == s;
    } else if s == [] || s[0] == '\0' {
      assert forall k :: 0 < k <= |s| ==> !NoNulBefore(s, k);
      assert s[0..] == s;
    } else {
      BodyLengthSpec(s[1..]);
      BodyLengthStep(s, BodyLength(s[1..]));
    }
  }

  lemma BodyLengthStep(s: string, tail: Option<nat>)
    requires s != [] && s[0] != '\0' && !ClosesHere(s)
    requires tail.Some? ==> IsBody(s[1..], tail.value)
    requires tail.None? ==> NoBody(s[1..])
    ensures tail.Some? ==> IsBody(s, tail.value + 1)
    ensures tail.None? ==> NoBody(s)
  {
    forall k | 1 <= k <= |s|
      ensures s[k..] == s[1..][k - 1..]
      ensures NoNulBefore(s, k) ==> NoNulBefore(s[1..], k - 1)
    {
    }
    if tail.Some? {
      var n := tail.value + 1;
      forall k | 0 <= k < n ensures !ClosesHere(s[k..]) {
        if k > 0 {
          assert !ClosesHere(s[1..][k - 1..]);
        } else {
          assert s[0..] == s;
        }
      }
      forall k | 0 <= k < n ensures s[k] != '\0' {
        if k > 0 {
          assert s[1..][k - 1] == s[k];
        }
      }
    } else {
      assert s[0..] == s;
    }
  }

  /** One match of the pattern: the language, the body, and how much text it covers. */
  datatype Match = Match(lang: string, body: string, length: nat)

  /** ```` ```(\w+) twoslash ````: the length of the language, when `s` opens a block. */
  function Opening(s: string): (w: Option<nat>)
    ensures w.Some? ==> StartsWith(s, Fence) && 0 < w.value && 3 + w.value + |Marker| <= |s|
    ensures w.Some? ==> AllWord(s[3..3 + w.value]) && StartsWith(s[3 + w.value..], Marker)
  {
    if !StartsWith(s, Fence) then None
    else
      var w := WordRun(s[3..]);
      WordRunMaximal(s[3..]);
      assert s[3..][..w] == s[3..3 + w];
      if w > 0 && StartsWith(s[3 + w..], Marker) then Some(w) else None
  }

  /** How much of `t` the closer `\n?```` takes when it matches there. */
  function CloserLength(t: string): nat {
    if t != [] && t[0] == '\n' then 4 else 3
  }

  /** The pattern tried at the start of `s`. */
  function MatchAt(s: string): (m: Option<Match>)
    ensures m.Some? ==> StartsWith(s, Fence) && 0 < m.value.length <= |s|
  {
    match Opening(s)
    case None => None
    case Some(w) =>
      var after := s[3 + w + |Marker|..];
      match BodyLength(after)
      case None => None
      case Some(n) =>
        assert |after[n..]| >= CloserLength(after[n..]) by {
          BodyLengthSpec(after);
        }
        Some(Match(s[3..3 + w], after[..n], 3 + w + |Marker| + n + CloserLength(after[n..])))
  }

  /** The matcher's steps, when each of them succeeds. */
  lemma MatchAtSucceeds(s: string, w: nat, n: nat, lang: string, body: string, length: nat)
    requires Opening(s) == Some(w)
    requires BodyLength(s[3 + w + |Marker|..]) == Some(n)
    requires s[3..3 + w] == lang && s[3 + w + |Marker|..][..n] == body
    requires length == 3 + w + |Marker| + n + CloserLength(s[3 + w + |Marker|..][n..])
    ensures MatchAt(s).Some?
    ensures MatchAt(s).value.lang == lang && MatchAt(s).value.body == body
    ensures MatchAt(s).value.length == length
  {
  }

  /**
   * What a match is: three backticks, a non-empty run of word characters,
   * the marker, then the shortest NUL-free body after which `\n?````
   * follows; the match covers exactly that much.
   */
  lemma MatchShape(s: string)
    requires MatchAt(s).Some?
    ensures var m := MatchAt(s).value;
      var head := Fence + m.lang + Marker + m.body;
      && m.lang != [] && AllWord(m.lang)
      && |head| <= |s| && s[..|head|] == head
      && '\0' !in m.body
      && ClosesHere(s[|head|..]) && OpenBefore(s[|head| - |m.body|..], |m.body|)
      && m.length == |head| + CloserLength(s[|head|..])
  {
    var w := Opening(s).value;
    var rest := s[3 + w + |Marker|..];
    var n := BodyLength(rest).value;
    var m := MatchAt(s).value;
    ShapeOf(s, w, n, m.lang, m.body);
  }

  /** The parts the matcher's steps cut out have the pattern's shape. */
  lemma ShapeOf(s: string, w: nat, n: nat, lang: string, body: string)
    requires Opening(s) == Some(w)
    requires var rest := s[3 + w + |Marker|..];
      BodyLength(rest) == Some(n) && lang == s[3..3 + w] && body == rest[..n]
    ensures var head := Fence + lang + Marker + body;
      && lang != [] && AllWord(lang)
      && |head| <= |s| && s[..|head|] == head
      && '\0' !in body
      && ClosesHere(s[|head|..]) && OpenBefore(s[|head| - |body|..], |body|)
      && |head| + CloserLength(s[|head|..]) == 3 + w + |Marker| + n + CloserLength(s[3 + w + |Marker|..][n..])
  {
    var start := 3 + w + |Marker|;
    var rest := s[start..];
    var head := Fence + lang + Marker + body;
    HeadOf(s, w, n, lang, body);
    BodyLengthSpec(rest);
    BodyHasNoNul(rest, n);
    assert s[|head|..] == rest[n..];
    assert s[|head| - |body|..] == rest;
  }

  lemma BodyHasNoNul(rest: string, n: nat)
    requires n <= |rest| && NoNulBefore(rest, n)
    ensures '\0' !in rest[..n]
  {
    forall k | 0 <= k < n ensures rest[..n][k] != '\0' {
      assert rest[..n][k] == rest[k];
    }
  }

  /** The matched text starts with the fence, the language, the marker and the body. */
  lemma HeadOf(s: string, w: nat, n: nat, lang: string, body: string)
    requires Opening(s) == Some(w)
    requires var start := 3 + w + |Marker|;
      start + n <= |s| && lang == s[3..3 + w] && body == s[start..][..n]
    ensures var head := Fence + lang + Marker + body;
      |head| == 3 + w + |Marker| + n && s[..|head|] == head
  {
    var start := 3 + w + |Marker|;
    assert s[..3] == Fence;
    assert s[3 + w..start] == Marker;
    assert s[..start + n] == s[..3] + s[3..3 + w] + s[3 + w..start] + s[start..start + n];
  }

  /** What `'{% shiki \1 %}\2{% endshiki %}'` expands to. */
  function Replacement(lang: string, body: string): (r: string)
    ensures StartsWith(r, "{% shiki ")
    ensures |r| == |lang| + |body| + 26
  {
    "{% shiki " + lang + " %}" + body + "{% endshiki %}"
  }

  /**
   * `gsub`: scan left to right; replace each match and go on after it, keep
   * any other character.  A replacement is longer than the block it
   * replaces, so a rewrite never shortens the page.
   */
  function RewriteFences(s: string): (r: string)
    ensures |s| <= |r|
    decreases |s|
  {
    if s == [] then []
    else
      match MatchAt(s)
      case Some(m) =>
        MatchLength(s);
        Replacement(m.lang, m.body) + RewriteFences(s[m.length..])
      case None => [s[0]] + RewriteFences(s[1..])
  }

  /** A match covers the fences, the language, the marker, the body and at most one terminator. */
  lemma MatchLength(s: string)
    requires MatchAt(s).Some?
    ensures var m := MatchAt(s).value; m.length <= |m.lang| + |m.body| + 16
  {
  }

  /** Where a match starts, its replacement comes first and rewriting resumes after it. */
  lemma RewriteMatch(s: string)
    requires MatchAt(s).Some?
    ensures var m := MatchAt(s).value;
      m.length <= |s| && RewriteFences(s) == Replacement(m.lang, m.body) + RewriteFences(s[m.length..])
  {
  }

  /** No match of the pattern starts anywhere in `s`. */
  predicate NoBlock(s: string) {
    forall k :: 0 <= k <= |s| ==> MatchAt(s[k..]).None?
  }

  /**
   * The hook changes a page exactly when the pattern matches somewhere in
   * it: a replacement starts with `{` where the text had a backtick.
   */
  lemma {:induction false} RewriteUnchangedIff(s: string)
    ensures RewriteFences(s) == s <==> NoBlock(s)
    decreases |s|
  {
    if s == [] {
      assert forall k :: 0 <= k <= |s| ==> s[k..] == [];
    } else {
      match MatchAt(s)
      case Some(m) =>
        var r := RewriteFences(s);
        assert r[0] == '{';
        assert s[0] == '`';
        assert !NoBlock(s) by {
          assert s[0..] == s;
        }
      case None =>
        RewriteUnchangedIff(s[1..]);
        assert RewriteFences(s) == [s[0]] + RewriteFences(s[1..]);
        forall k | 1 <= k <= |s| ensures s[k..] == s[1..][k - 1..] {
        }
        if NoBlock(s) {
          assert NoBlock(s[1..]) by {
            forall k | 0 <= k <= |s[1..]| ensures MatchAt(s[1..][k..]).None? {
              assert s[1..][k..] == s[k + 1..];
            }
          }
        } else {
          var k :| 0 <= k <= |s| && MatchAt(s[k..]).Some?;
          assert k != 0 by {
            assert s[0..] == s;
          }
          assert !NoBlock(s[1..]) by {
            assert s[1..][k - 1..] == s[k..];
          }
          assert RewriteFences(s[1..]) != s[1..];
          assert RewriteFences(s) != s by {
            assert ([s[0]] + RewriteFences(s[1..]))[1..] == RewriteFences(s[1..]);
          }
        }
    }
  }

  /** Text without three backticks in a row is never changed. */
  lemma WithoutFenceUnchanged(s: string)
    requires forall k :: 0 <= k <= |s| ==> !StartsWith(s[k..], Fence)
    ensures RewriteFences(s) == s
  {
    RewriteUnchangedIff(s);
  }

  /** The body with one terminator right before the closing fence dropped, as `\n?` does. */
  function DropNewline(b: string): (r: string)
    ensures |r| <= |b| <= |r| + 1 && r == b[..|r|]
    ensures |r| < |b| <==> b != [] && b[|b| - 1] == '\n'
  {
    if b != [] && b[|b| - 1] == '\n' then b[..|b| - 1] else b
  }

  /**
   * A well-formed block is replaced whole: the language becomes the tag's
   * argument, the body (free of backticks and NUL) its content minus one
   * terminator before the closing fence, and rewriting resumes after the
   * fence.
   */
  lemma RewriteBlock(lang: string, body: string, rest: string)
    requires lang != [] && AllWord(lang)
    requires '`' !in body && '\0' !in body
    ensures RewriteFences(Fence + lang + Marker + body + Fence + rest)
      == Replacement(lang, DropNewline(body)) + RewriteFences(rest)
  {
    var s := Fence + lang + Marker + body + Fence + rest;
    BlockSteps(s, lang, body, rest);
    RewriteAt(s, lang, DropNewline(body), rest);
  }

  /** Where each step of the matcher succeeds, the text is replaced up to `rest`. */
  lemma RewriteAt(s: string, lang: string, body: string, rest: string)
    requires |rest| <= |s| && s[|s| - |rest|..] == rest
    requires var w, n := |lang|, |body|;
      var start := 3 + w + |Marker|;
      && Opening(s) == Some(w) && BodyLength(s[start..]) == Some(n)
      && s[3..3 + w] == lang && s[start..][..n] == body
      && |s| - |rest| == start + n + CloserLength(s[start..][n..])
    ensures RewriteFences(s) == Replacement(lang, body) + RewriteFences(rest)
  {
    MatchAtSucceeds(s, |lang|, |body|, lang, body, |s| - |rest|);
    RewriteFound(s, lang, body, rest);
  }

  lemma RewriteFound(s: string, lang: string, body: string, rest: string)
    requires |rest| <= |s| && s[|s| - |rest|..] == rest
    requires MatchAt(s).Some? && MatchAt(s).value.lang == lang && MatchAt(s).value.body == body
    requires MatchAt(s).value.length == |s| - |rest|
    ensures RewriteFences(s) == Replacement(lang, body) + RewriteFences(rest)
  {
    var m := MatchAt(s).value;
    assert s[m.length..] == rest;
    RewriteMatch(s);
  }

  /** The closer as a block usually ends: a terminator, then the fence. */
  const LineFence: string := "\n```"

  /** No three backticks in a row occur in `b`. */
  predicate NoFenceIn(b: string) {
    forall k :: 0 <= k < |b| - 2 ==> !(b[k] == '`' && b[k + 1] == '`' && b[k + 2] == '`')
  }

  /**
   * A block whose body holds neither three backticks in a row nor NUL, and
   * which is closed by a terminator and the fence, becomes `{% shiki lang %}`,
   * the whole body, `{% endshiki %}`; rewriting resumes after the fence.
   */
  lemma RewriteTwoslashBlock(lang: string, body: string, rest: string)
    requires lang != [] && AllWord(lang)
    requires NoFenceIn(body) && '\0' !in body
    ensures RewriteFences(Fence + lang + Marker + body + LineFence + rest)
      == Replacement(lang, body) + RewriteFences(rest)
  {
    var s := Fence + lang + Marker + body + LineFence + rest;
    LineBlockSteps(s, lang, body, rest);
    RewriteAt(s, lang, body, rest);
  }

  /** The matcher's steps on a block closed by a terminator and the fence. */
  lemma LineBlockSteps(s: string, lang: string, body: string, rest: string)
    requires s == Fence + lang + Marker + body + LineFence + rest
    requires lang != [] && AllWord(lang)
    requires NoFenceIn(body) && '\0' !in body
    ensures var w, n := |lang|, |body|;
      var start := 3 + w + |Marker|;
      && Opening(s) == Some(w) && BodyLength(s[start..]) == Some(n)
      && s[3..3 + w] == lang && s[start..][..n] == body
      && |s| - |rest| == start + n + CloserLength(s[start..][n..])
    ensures |rest| <= |s| && s[|s| - |rest|..] == rest
  {
    var after := body + (LineFence + rest);
    OpeningOfBlock(lang, after);
    ConcatAssoc(Fence + lang + Marker + body, LineFence, rest);
    ConcatAssoc(Fence + lang + Marker, body, LineFence + rest);
    ConcatAssoc(Fence + lang, Marker, after);
    LazyBodyBeforeLineFence(body, rest);
    assert after[..|body|] == body;
    assert after[|body|..] == LineFence + rest;
  }

  /** Before a terminator and the fence, a body without three backticks in a row is taken whole. */
  lemma {:induction false} LazyBodyBeforeLineFence(body: string, rest: string)
    requires NoFenceIn(body) && '\0' !in body
    ensures BodyLength(body + (LineFence + rest)) == Some(|body|)
    decreases |body|
  {
    var after := LineFence + rest;
    var s := body + after;
    if body == [] {
      assert s == after;
      assert s[..4] == LineFence;
    } else {
      NoCloserInBody(body, after);
      assert s[1..] == body[1..] + after;
      assert NoFenceIn(body[1..]) by {
        forall k | 0 <= k < |body| - 3
          ensures !(body[1..][k] == '`' && body[1..][k + 1] == '`' && body[1..][k + 2] == '`')
        {
          assert body[1..][k] == body[k + 1];
        }
      }
      LazyBodyBeforeLineFence(body[1..], rest);
    }
  }

  /** A closer cannot start at the front of a non-empty backtick-triple-free body followed by a terminator. */
  lemma NoCloserInBody(body: string, after: string)
    requires body != [] && NoFenceIn(body) && '\0' !in body
    requires StartsWith(after, LineFence)
    ensures var s := body + after; s[0] != '\0' && !ClosesHere(s)
  {
    var s := body + after;
    var m := |body|;
    assert s[m] == '\n';
    assert !(s[0] == '`' && s[1] == '`' && s[2] == '`') by {
      if m >= 3 {
        assert s[0] == body[0] && s[1] == body[1] && s[2] == body[2];
      }
    }
    assert !(s[1] == '`' && s[2] == '`' && s[3] == '`') by {
      if m >= 4 {
        assert s[1] == body[1] && s[2] == body[2] && s[3] == body[3];
      }
    }
    assert s[..3] == [s[0], s[1], s[2]];
    assert s[..4] == [s[0], s[1], s[2], s[3]];
  }

  /** The matcher's steps on a well-formed block. */
  lemma BlockSteps(s: string, lang: string, body: string, rest: string)
    requires s == Fence + lang + Marker + body + Fence + rest
    requires lang != [] && AllWord(lang)
    requires '`' !in body && '\0' !in body
    ensures var w, n := |lang|, |DropNewline(body)|;
      var start := 3 + w + |Marker|;
      && Opening(s) == Some(w) && BodyLength(s[start..]) == Some(n)
      && s[3..3 + w] == lang && s[start..][..n] == DropNewline(body)
      && |s| - |rest| == start + n + CloserLength(s[start..][n..])
    ensures |rest| <= |s| && s[|s| - |rest|..] == rest
  {
    var n := |DropNewline(body)|;
    var after := body + (Fence + rest);
    OpeningOfBlock(lang, after);
    ConcatAssoc(Fence + lang + Marker + body, Fence, rest);
    ConcatAssoc(Fence + lang + Marker, body, Fence + rest);
    ConcatAssoc(Fence + lang, Marker, after);
    LazyBody(body, Fence + rest);
    assert after[..n] == DropNewline(body);
    CloserAfterBody(body, rest);
  }

  /** A fence, a language and the marker open a block whose language is exactly that word. */
  lemma OpeningOfBlock(lang: string, after: string)
    requires lang != [] && AllWord(lang)
    ensures var s := Fence + lang + (Marker + after);
      && Opening(s) == Some(|lang|) && s[3..3 + |lang|] == lang
      && s[3 + |lang| + |Marker|..] == after
  {
    var s := Fence + lang + (Marker + after);
    var w := |lang|;
    assert s[..3] == Fence;
    assert s[3..] == lang + (Marker + after);
    WordRunOf(lang, Marker + after);
    assert s[3 + w..] == Marker + after;
    assert s[3 + w..][..|Marker|] == Marker;
  }

  /** After the lazy body of a block comes a closer that ends at the fence. */
  lemma CloserAfterBody(body: string, rest: string)
    ensures var n := |DropNewline(body)|;
      n + CloserLength((body + (Fence + rest))[n..]) == |body| + 3
  {
    var after := body + (Fence + rest);
    var n := |DropNewline(body)|;
    if n < |body| {
      assert after[n..][0] == body[n] == '\n';
    } else {
      assert after[n..][0] == '`';
    }
  }

  /** The word run of a word followed by something else than a word character is the word. */
  lemma {:induction false} WordRunOf(w: string, t: string)
    requires AllWord(w) && (t == [] || !IsWordChar(t[0]))
    ensures WordRun(w + t) == |w|
  {
    if w != [] {
      assert (w + t)[1..] == w[1..] + t;
      WordRunOf(w[1..], t);
    } else {
      assert w + t == t;
    }
  }

  /** The body ends at the first place the closer matches, which for a backtick-free body is its end. */
  lemma {:induction false} LazyBody(body: string, after: string)
    requires '`' !in body && '\0' !in body && StartsWith(after, Fence)
    ensures BodyLength(body + after) == Some(|DropNewline(body)|)
    decreases |body|
  {
    var s := body + after;
    if body == [] {
      assert s == after;
    } else if body == "\n" {
      assert s == "\n" + after;
      assert s[..4] == "\n" + Fence;
    } else {
      assert s[0] == body[0];
      assert !ClosesHere(s) by {
        if |body| > 1 {
          assert s[1] == body[1];
        }
      }
      assert s[1..] == body[1..] + after;
      LazyBody(body[1..], after);
      assert |DropNewline(body[1..])| + 1 == |DropNewline(body)|;
    }
  }

  /**
   * Without the marker right after the language a fence is not a
   * highlighting block: no match starts there (a plain ```` ```ts ```` block
   * is left to Jekyll).
   */
  lemma NoMarkerNoMatch(lang: string, rest: string)
    requires AllWord(lang)
    requires rest == [] || !IsWordChar(rest[0])
    requires !StartsWith(rest, Marker)
    ensures MatchAt(Fence + lang + rest).None?
  {
    var s := Fence + lang + rest;
    assert s[3..] == lang + rest;
    WordRunOf(lang, rest);
    assert s[3 + |lang|..] == rest;
  }

  /**
   * The language a rewritten block hands to the highlighting tag survives
   * `strip` unchanged and holds neither the request separator nor a line
   * terminator, so its request is one well-formed line.
   */
  lemma RewrittenLanguageIsSafe(lang: string)
    requires lang != [] && AllWord(lang)
    ensures Plugin.Strip(" " + lang + " ") == lang
    ensures ';' !in lang && '\n' !in lang
  {
    assert ';' !in lang && '\n' !in lang by {
      forall k | 0 <= k < |lang| ensures lang[k] != ';' && lang[k] != '\n' {
        assert IsWordChar(lang[k]);
      }
    }
    assert Plugin.Strip(" " + lang + " ") == lang by {
      assert IsWordChar(lang[0]) && IsWordChar(lang[|lang| - 1]);
      Plugin.StripPadded(" ", lang, " ");
    }
  }

  /** A post as the hook sees it. */
  class Page {
    var content: string

    constructor (content: string)
      ensures this.content == content
    {
      this.content := content;
    }
  }

  /** The hook (lines 49-50): the page's content is replaced by its rewrite. */
  method PreRender(page: Page)
    modifies page
    ensures page.content == RewriteFences(old(page.content))
  {
    page.content := RewriteFences(page.content);
  }
}
