/** The pure text handling of the Content component: the blank-input test,
    the removal of `*` from an answer, the prefixes the typewriter reveal
    shows, and the display parse of an answer into lines split at their
    first colon. */
module Text {

  // ---------------------------------------------------------------------
  // Blank input: `!text.trim()`
  // ---------------------------------------------------------------------

  /** The characters JavaScript's `String.prototype.trim` removes: the
      ECMAScript WhiteSpace and LineTerminator code points. */
  predicate IsWhitespace(c: char) {
    || c == '\t' || c == '\n' || c == '\U{B}' || c == '\U{C}' || c == '\r'
    || c == ' ' || c == '\U{A0}' || c == '\U{1680}'
    || ('\U{2000}' <= c <= '\U{200A}')
    || c == '\U{2028}' || c == '\U{2029}' || c == '\U{202F}' || c == '\U{205F}'
    || c == '\U{3000}' || c == '\U{FEFF}'
  }

  predicate AllWhitespace(s: string) {
    forall i :: 0 <= i < |s| ==> IsWhitespace(s[i])
  }

  function TrimStart(s: string): (r: string)
    ensures |r| <= |s| && r == s[|s| - |r|..]
    ensures r == [] || !IsWhitespace(r[0])
  {
    if s != [] && IsWhitespace(s[0]) then TrimStart(s[1..]) else s
  }

  function TrimEnd(s: string): (r: string)
    ensures |r| <= |s| && r == s[..|r|]
    ensures r == [] || !IsWhitespace(r[|r| - 1])
  {
    if s != [] && IsWhitespace(s[|s| - 1]) then TrimEnd(s[..|s| - 1]) else s
  }

  /** `s.trim()`: the input without leading and trailing whitespace. */
  function Trim(s: string): (r: string) {
    TrimEnd(TrimStart(s))
  }

  /** The guard of `Answer`: the input is falsy once trimmed. */
  predicate IsBlank(s: string) {
    Trim(s) == ""
  }

  lemma {:induction false} TrimStartEmpty(s: string)
    ensures TrimStart(s) == [] <==> AllWhitespace(s)
  {
    if s != [] && IsWhitespace(s[0]) {
      TrimStartEmpty(s[1..]);
      assert AllWhitespace(s[1..]) ==> AllWhitespace(s) by {
        if AllWhitespace(s[1..]) {
          forall i | 0 < i < |s| ensures IsWhitespace(s[i]) {
            assert s[i] == s[1..][i - 1];
          }
        }
      }
    }
  }

  /** An input is blank exactly when every character in it is whitespace. */
  lemma BlankIffAllWhitespace(s: string)
    ensures IsBlank(s) <==> AllWhitespace(s)
  {
    TrimStartEmpty(s);
    var t := TrimStart(s);
    assert t != [] ==> TrimEnd(t) != [] by {
      if t != [] {
        var r := TrimEnd(t);
        if r == [] {
          TrimEndEmptyAll(t);
        }
      }
    }
  }

  lemma {:induction false} TrimEndEmptyAll(s: string)
    requires TrimEnd(s) == []
    ensures AllWhitespace(s)
  {
    if s != [] {
      assert IsWhitespace(s[|s| - 1]);
      TrimEndEmptyAll(s[..|s| - 1]);
      forall i | 0 <= i < |s| - 1 ensures IsWhitespace(s[i]) {
        assert s[i] == s[..|s| - 1][i];
      }
    }
  }

  // ---------------------------------------------------------------------
  // Markup removal: `newAnswer.replace(/\*/g, "")`
  // ---------------------------------------------------------------------

  /** The reply with every `*` removed: no `*` is left. */
  function StripStars(s: string): (r: string)
    ensures '*' !in r
    ensures |r| <= |s|
  {
    if s == [] then []
    else (if s[0] == '*' then [] else [s[0]]) + StripStars(s[1..])
  }

  /** Stripping removes exactly the `*`: every other character occurs as
      often as in the reply. */
  lemma {:induction false} StripStarsCount(s: string, c: char)
    ensures multiset(StripStars(s))[c] == if c == '*' then 0 else multiset(s)[c]
  {
    if s != [] {
      assert s == [s[0]] + s[1..];
      StripStarsCount(s[1..], c);
    }
  }

  /** Stripping a reply in two pieces strips it whole: the characters keep their order. */
  lemma {:induction false} StripStarsAppend(a: string, b: string)
    ensures StripStars(a + b) == StripStars(a) + StripStars(b)
  {
    if a == [] {
      assert a + b == b;
    } else {
      var head := if a[0] == '*' then [] else [a[0]];
      assert (a + b)[0] == a[0] && (a + b)[1..] == a[1..] + b;
      calc {
        StripStars(a + b);
        head + StripStars(a[1..] + b);
        { StripStarsAppend(a[1..], b); }
        head + (StripStars(a[1..]) + StripStars(b));
        (head + StripStars(a[1..])) + StripStars(b);
        StripStars(a) + StripStars(b);
      }
    }
  }

  /** A text without `*` is left as it is. */
  lemma {:induction false} StripStarsNoStar(s: string)
    requires '*' !in s
    ensures StripStars(s) == s
  {
    if s != [] {
      StripStarsNoStar(s[1..]);
    }
  }

  /** Stripping twice is stripping once. */
  lemma StripStarsIdempotent(s: string)
    ensures StripStars(StripStars(s)) == StripStars(s)
  {
    StripStarsNoStar(StripStars(s));
  }

  // ---------------------------------------------------------------------
  // The typewriter reveal
  // ---------------------------------------------------------------------

  /** `s.substring(0, n)` for `n >= 0`: the first `n` characters, or all of
      `s` when it is shorter. */
  function Take(s: string, n: nat): (r: string)
    ensures r <= s
    ensures |r| == if n <= |s| then n else |s|
  {
    if n <= |s| then s[..n] else s
  }

  /** How many interval ticks reveal `t`: the callback stops once its
      counter reaches `|t|`, and always runs at least once. */
  function TickCount(t: string): (r: nat)
    ensures r >= 1
  {
    if |t| == 0 then 1 else |t|
  }

  /** The answers the successive ticks write: tick `k` writes the first
      `k + 1` characters. */
  function Frames(t: string): (r: seq<string>)
    ensures |r| == TickCount(t)
  {
    seq(TickCount(t), k requires 0 <= k => Take(t, k + 1))
  }

  /** There is one frame per tick; frame `k` is the first `k + 1`
      characters, and the last one is the whole answer. */
  lemma FrameAt(t: string, k: nat)
    requires k < TickCount(t)
    ensures |Frames(t)| == TickCount(t)
    ensures Frames(t)[k] == Take(t, k + 1)
    ensures k == TickCount(t) - 1 ==> Frames(t)[k] == t
  {
  }

  /** The revealed prefixes grow by one character at a time (for a
      non-empty answer), each extends the one before, and the last one is
      the whole answer; an empty answer is revealed in one tick as `""`. */
  lemma FramesReveal(t: string)
    ensures |Frames(t)| == TickCount(t) && |Frames(t)| > 0
    ensures Frames(t)[|Frames(t)| - 1] == t
    ensures t == "" ==> Frames(t) == [""]
    ensures forall k :: 0 <= k < |Frames(t)| ==> Frames(t)[k] <= t
    ensures forall k :: 0 < k < |Frames(t)| ==>
              Frames(t)[k - 1] < Frames(t)[k] && |Frames(t)[k]| == |Frames(t)[k - 1]| + 1
  {
  }

  // ---------------------------------------------------------------------
  // Display parse: `answer.split("\n")`, then `indexOf(":")` per line
  // ---------------------------------------------------------------------

  /** `s.split("\n")`: the lines of `s`, none holding a newline; there is
      always at least one. */
  function SplitLines(s: string): (r: seq<string>)
    ensures |r| >= 1
    ensures forall k :: 0 <= k < |r| ==> '\n' !in r[k]
  {
    if s == [] then [""]
    else
      var rest := SplitLines(s[1..]);
      if s[0] == '\n' then [""] + rest
      else [[s[0]] + rest[0]] + rest[1..]
  }

  /** `lines.join("\n")`. */
  function JoinLines(lines: seq<string>): (r: string) {
    if |lines| == 0 then ""
    else if |lines| == 1 then lines[0]
    else lines[0] + "\n" + JoinLines(lines[1..])
  }

  /** Splitting into lines loses nothing: joining them gives the text back. */
  lemma {:induction false} JoinSplitLines(s: string)
    ensures JoinLines(SplitLines(s)) == s
  {
    if s != [] {
      var rest := SplitLines(s[1..]);
      JoinSplitLines(s[1..]);
      if s[0] == '\n' {
        assert ([""] + rest)[1..] == rest;
      } else {
        var r := [[s[0]] + rest[0]] + rest[1..];
        assert r[1..] == rest[1..];
        if |rest| > 1 {
          assert JoinLines(rest) == rest[0] + "\n" + JoinLines(rest[1..]);
        }
      }
    }
  }

  /** `s.indexOf(c)`: the first position of `c`, or -1 when there is none. */
  function IndexOf(s: string, c: char): (r: int)
    ensures -1 <= r < |s|
    ensures r == -1 <==> c !in s
    ensures 0 <= r ==> s[r] == c && c !in s[..r]
  {
    if s == [] then -1
    else if s[0] == c then 0
    else
      var k := IndexOf(s[1..], c);
      assert s[1..][..(if k < 0 then 0 else k)] == s[1..(if k < 0 then 1 else k + 1)];
      if k == -1 then -1 else k + 1
  }

  /** How one line of an answer is laid out: shown whole, or as a bold
      topic followed by its content. */
  datatype Paragraph = Plain(text: string) | Topic(topic: string, content: string)

  /** The per-line parse of the render map: a line without `:` is shown
      whole; otherwise it is cut at its first `:`, which is dropped from
      both halves. */
  function ParseLine(line: string): (p: Paragraph)
    ensures p.Plain? <==> ':' !in line
    ensures p.Plain? ==> p.text == line
    ensures p.Topic? ==> ':' !in p.topic && p.topic + ":" + p.content == line
  {
    var i := IndexOf(line, ':');
    if i == -1 then Plain(line)
    else
      assert line == line[..i] + ":" + line[i + 1..];
      Topic(line[..i], line[i + 1..])
  }

  /** The text a paragraph stands for. */
  function Unparse(p: Paragraph): (r: string) {
    match p
    case Plain(text) => text
    case Topic(topic, content) => topic + ":" + content
  }

  /** The layout of a whole answer, one paragraph per line. */
  function Render(answer: string): (r: seq<Paragraph>) {
    var lines := SplitLines(answer);
    seq(|lines|, k requires 0 <= k < |lines| => ParseLine(lines[k]))
  }

  /** The lines a layout stands for. */
  function UnparseAll(ps: seq<Paragraph>): (lines: seq<string>)
    ensures |lines| == |ps|
    ensures forall k :: 0 <= k < |ps| ==> lines[k] == Unparse(ps[k])
  {
    if ps == [] then [] else [Unparse(ps[0])] + UnparseAll(ps[1..])
  }

  /** The display parse is lossless: the answer can be read back from its
      layout, so rendering never needs to alter the stored answer. */
  lemma RenderLossless(answer: string)
    ensures JoinLines(UnparseAll(Render(answer))) == answer
  {
    var lines := SplitLines(answer);
    assert UnparseAll(Render(answer)) == lines;
    JoinSplitLines(answer);
  }
}
