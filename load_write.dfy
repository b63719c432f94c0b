/**
 * The stream extractor, load_objects_from_stream: a three-stage character scanner
 * that carves the `{...}` texts of the elements out of a top-level JSON array.
 * Each emitted text is what the Python code hands to `json.loads`; parsing is not
 * part of this model.
 */
module LoadWrite {
  import opened Wrappers

  /** The `stage` variable: 0 before the opening '[', 1 between elements, 2 inside one. */
  datatype Stage = SeekArray | BetweenObjects | InsideObject

  /** The scanner state: `stage`, the text buffered for the current element, and `ret`. */
  datatype Scanner = Scanner(stage: Stage, buff: string, ret: seq<string>)

  /** The state before the first character. */
  const Start := Scanner(SeekArray, "", [])

  /**
   * One character. None means `break`: a ']' between elements abandons the rest of
   * the line. A '{' between elements opens a fresh buffer and, falling through into
   * stage 2, is written to it.
   */
  function Step(s: Scanner, a: char): Option<Scanner>
  {
    match s.stage
    case SeekArray =>
      Some(if a == '[' then s.(stage := BetweenObjects) else s)
    case BetweenObjects =>
      if a == ']' then None
      else if a == '{' then Some(s.(stage := InsideObject, buff := "{"))
      else Some(s)
    case InsideObject =>
      if a == '}' then Some(Scanner(BetweenObjects, "", s.ret + [s.buff + "}"]))
      else Some(s.(buff := s.buff + [a]))
  }

  /** The inner `for a in line` loop. */
  function ScanLine(s: Scanner, line: string): Scanner
    decreases |line|
  {
    if line == [] then s
    else match Step(s, line[0])
      case None => s
      case Some(t) => ScanLine(t, line[1..])
  }

  /** Whether the line loop stops at a ']' before reaching the end of `line`. */
  predicate Halts(s: Scanner, line: string)
    decreases |line|
  {
    line != [] &&
    match Step(s, line[0])
    case None => true
    case Some(t) => Halts(t, line[1..])
  }

  /** The outer `for line in _input` loop; the state carries over from line to line. */
  function ScanLines(s: Scanner, lines: seq<string>): Scanner
    decreases |lines|
  {
    if lines == [] then s else ScanLines(ScanLine(s, lines[0]), lines[1..])
  }

  /** The list load_objects_from_stream returns, before each text is parsed. */
  function Extract(lines: seq<string>): seq<string>
  {
    ScanLines(Start, lines).ret
  }

  /**
   * load_objects_from_stream: `input` is the stream's lines, each with its '\n'.
   * `count` is the number the final log line reports.
   */
  method LoadObjectsFromStream(input: seq<string>) returns (ret: seq<string>, count: nat)
    ensures ret == Extract(input)
    ensures count == |ret|
  {
    ret, count := [], 0;
    var stage := SeekArray;
    var buff := "";
    var k := 0;
    while k < |input|
      invariant 0 <= k <= |input|
      invariant ScanLines(Scanner(stage, buff, ret), input[k..]) == ScanLines(Start, input)
      invariant count == |ret|
    {
      var line := input[k];
      ghost var atLineStart := Scanner(stage, buff, ret);
      var i := 0;
      while i < |line|
        invariant 0 <= i <= |line|
        invariant ScanLine(Scanner(stage, buff, ret), line[i..]) == ScanLine(atLineStart, line)
        invariant count == |ret|
      {
        var a := line[i];
        assert line[i..][0] == a && line[i..][1..] == line[i + 1..];
        ghost var before := Scanner(stage, buff, ret);
        if stage == SeekArray {
          if a == '[' {
            stage := BetweenObjects;
            i := i + 1;
            continue;
          }
        }
        if stage == BetweenObjects {
          if a == ']' {
            break;
          }
          if a == '{' {
            buff := "";
            stage := InsideObject;
          }
        }
        if stage == InsideObject {
          if a == '}' {
            buff := buff + [a];
            ret := ret + [buff];
            buff := "";
            stage := BetweenObjects;
            count := count + 1;
          } else {
            assert before.stage == BetweenObjects ==> buff + [a] == "{";
            buff := buff + [a];
          }
        }
        assert Step(before, a) == Some(Scanner(stage, buff, ret));
        i := i + 1;
      }
      assert Scanner(stage, buff, ret) == ScanLine(atLineStart, line);
      assert input[k..][1..] == input[k + 1..];
      k := k + 1;
    }
    assert input[k..] == [];
  }

  /** load_objects_from_str: the string is iterated line by line, as StringIO does. */
  method LoadObjectsFromStr(s: string) returns (ret: seq<string>, count: nat)
    ensures ret == Extract(SplitLines(s))
    ensures count == |ret|
  {
    ret, count := LoadObjectsFromStream(SplitLines(s));
  }

  /** The length of the first line of `s`, its '\n' included. */
  function LineLength(s: string): (n: nat)
    requires s != ""
    ensures 1 <= n <= |s|
    ensures forall i :: 0 <= i < n - 1 ==> s[i] != '\n'
    ensures n < |s| ==> s[n - 1] == '\n'
  {
    if s[0] == '\n' || |s| == 1 then 1 else 1 + LineLength(s[1..])
  }

  /** The lines that iterating `StringIO(s)` yields: split after every '\n'. */
  function SplitLines(s: string): seq<string>
    decreases |s|
  {
    if s == "" then [] else [s[..LineLength(s)]] + SplitLines(s[LineLength(s)..])
  }

  function Concat(lines: seq<string>): string
  {
    if lines == [] then "" else lines[0] + Concat(lines[1..])
  }

  // ---------------------------------------------------------------------------
  // What the scanner emits.

  /**
   * An emitted element: starts with '{', ends with '}', and contains no other '}'
   * (the first '}' closes the element; nesting is not counted).
   */
  predicate Element(e: string)
  {
    |e| >= 2 && e[0] == '{' && e[|e| - 1] == '}' &&
    forall i :: 0 <= i < |e| - 1 ==> e[i] != '}'
  }

  predicate Sound(s: Scanner)
  {
    && (forall e :: e in s.ret ==> Element(e))
    && (s.stage == InsideObject ==>
          |s.buff| >= 1 && s.buff[0] == '{' && forall i :: 0 <= i < |s.buff| ==> s.buff[i] != '}')
  }

  lemma StepSound(s: Scanner, a: char)
    requires Sound(s)
    ensures Step(s, a).Some? ==> Sound(Step(s, a).value)
    ensures Step(s, a).Some? ==> s.ret <= Step(s, a).value.ret
  {
    if s.stage == InsideObject && a == '}' {
      var e := s.buff + "}";
      assert Element(e);
    }
  }

  lemma {:induction false} ScanLineSound(s: Scanner, line: string)
    requires Sound(s)
    ensures Sound(ScanLine(s, line))
    ensures s.ret <= ScanLine(s, line).ret
    decreases |line|
  {
    if line != [] {
      StepSound(s, line[0]);
      if Step(s, line[0]).Some? {
        ScanLineSound(Step(s, line[0]).value, line[1..]);
      }
    }
  }

  lemma {:induction false} ScanLinesSound(s: Scanner, lines: seq<string>)
    requires Sound(s)
    ensures Sound(ScanLines(s, lines))
    ensures s.ret <= ScanLines(s, lines).ret
    decreases |lines|
  {
    if lines != [] {
      ScanLineSound(s, lines[0]);
      ScanLinesSound(ScanLine(s, lines[0]), lines[1..]);
    }
  }

  /** Every text the extractor returns is one '{' ... '}' element with exactly one '}'. */
  lemma ExtractElements(lines: seq<string>)
    ensures forall e :: e in Extract(lines) ==> Element(e)
  {
    ScanLinesSound(Start, lines);
  }

  // ---------------------------------------------------------------------------
  // How each stage treats its characters.

  /** Before the first '[' every character is ignored, and the '[' itself is not buffered. */
  lemma {:induction false} LeadingNoiseIgnored(noise: string, rest: string)
    requires '[' !in noise
    ensures ScanLine(Start, noise + "[" + rest) == ScanLine(Scanner(BetweenObjects, "", []), rest)
    decreases |noise|
  {
    if noise == [] {
      assert noise + "[" + rest == "[" + rest;
    } else {
      assert (noise + "[" + rest)[1..] == noise[1..] + "[" + rest;
      LeadingNoiseIgnored(noise[1..], rest);
    }
  }

  /** Between elements, characters other than '{' and ']' are discarded. */
  lemma {:induction false} SeparatorsIgnored(s: Scanner, sep: string, rest: string)
    requires s.stage == BetweenObjects
    requires '{' !in sep && ']' !in sep
    ensures ScanLine(s, sep + rest) == ScanLine(s, rest)
    ensures Halts(s, sep + rest) == Halts(s, rest)
    decreases |sep|
  {
    if sep == [] {
      assert sep + rest == rest;
    } else {
      assert (sep + rest)[1..] == sep[1..] + rest;
      SeparatorsIgnored(s, sep[1..], rest);
    }
  }

  /** A '{' between elements starts a fresh buffer that begins with that '{'. */
  lemma OpenBraceStartsElement(s: Scanner, rest: string)
    requires s.stage == BetweenObjects
    ensures ScanLine(s, "{" + rest) == ScanLine(Scanner(InsideObject, "{", s.ret), rest)
  {
    assert ("{" + rest)[1..] == rest;
  }

  /**
   * Inside an element every character up to the first '}' is buffered, newlines
   * included; that '}' closes the element, whatever braces came before it.
   */
  lemma {:induction false} BodyBuffered(s: Scanner, body: string, rest: string)
    requires s.stage == InsideObject && '}' !in body
    ensures ScanLine(s, body + "}" + rest)
         == ScanLine(Scanner(BetweenObjects, "", s.ret + [s.buff + body + "}"]), rest)
    ensures Halts(s, body + "}" + rest)
         == Halts(Scanner(BetweenObjects, "", s.ret + [s.buff + body + "}"]), rest)
    decreases |body|
  {
    if body == [] {
      assert (body + "}" + rest)[1..] == rest;
      assert s.buff + body == s.buff;
    } else {
      assert (body + "}" + rest)[1..] == body[1..] + "}" + rest;
      assert s.buff + [body[0]] + body[1..] == s.buff + body;
      BodyBuffered(s.(buff := s.buff + [body[0]]), body[1..], rest);
    }
  }

  /** A line that ends inside an element leaves it open: the next line continues the same buffer. */
  lemma {:induction false} ElementSpansLines(s: Scanner, line: string)
    requires s.stage == InsideObject && '}' !in line
    ensures ScanLine(s, line) == s.(buff := s.buff + line)
    decreases |line|
  {
    if line == [] {
      assert s.buff + line == s.buff;
    } else {
      assert s.buff + [line[0]] + line[1..] == s.buff + line;
      ElementSpansLines(s.(buff := s.buff + [line[0]]), line[1..]);
    }
  }

  /**
   * A ']' between elements only ends the current line: the stage stays 1, so
   * elements on later lines are still collected.
   */
  lemma CloseBracketEndsLineOnly(s: Scanner, junk: string, lines: seq<string>)
    requires s.stage == BetweenObjects
    ensures ScanLine(s, "]" + junk) == s
    ensures ScanLines(s, ["]" + junk] + lines) == ScanLines(s, lines)
  {
    assert (["]" + junk] + lines)[1..] == lines;
  }

  // ---------------------------------------------------------------------------
  // Round trip: an array rendered as text extracts back to its elements.

  /** The elements joined by a separator, as in `sep.join(elements)`. */
  function Join(es: seq<string>, sep: string): string
  {
    if es == [] then "" else if |es| == 1 then es[0] else es[0] + sep + Join(es[1..], sep)
  }

  lemma ElementScan(s: Scanner, e: string, rest: string)
    requires s.stage == BetweenObjects && Element(e)
    ensures ScanLine(s, e + rest) == ScanLine(Scanner(BetweenObjects, "", s.ret + [e]), rest)
    ensures Halts(s, e + rest) == Halts(Scanner(BetweenObjects, "", s.ret + [e]), rest)
  {
    var body := e[1..|e| - 1];
    assert e == "{" + body + "}";
    assert '}' !in body by {
      forall i | 0 <= i < |body| ensures body[i] != '}' { assert body[i] == e[i + 1]; }
    }
    assert e + rest == "{" + (body + "}" + rest);
    assert (e + rest)[1..] == body + "}" + rest;
    BodyBuffered(Scanner(InsideObject, "{", s.ret), body, rest);
  }

  lemma {:induction false} JoinScan(pre: seq<string>, es: seq<string>, sep: string, rest: string)
    requires forall e :: e in es ==> Element(e)
    requires '{' !in sep && ']' !in sep
    ensures ScanLine(Scanner(BetweenObjects, "", pre), Join(es, sep) + rest)
         == ScanLine(Scanner(BetweenObjects, "", pre + es), rest)
    ensures Halts(Scanner(BetweenObjects, "", pre), Join(es, sep) + rest)
         == Halts(Scanner(BetweenObjects, "", pre + es), rest)
    decreases |es|
  {
    var s := Scanner(BetweenObjects, "", pre);
    if es == [] {
      assert Join(es, sep) + rest == rest;
      assert pre + es == pre;
    } else if |es| == 1 {
      ElementScan(s, es[0], rest);
      assert pre + [es[0]] == pre + es;
    } else {
      var t := Scanner(BetweenObjects, "", pre + [es[0]]);
      assert Join(es, sep) + rest == es[0] + (sep + (Join(es[1..], sep) + rest));
      ElementScan(s, es[0], sep + (Join(es[1..], sep) + rest));
      SeparatorsIgnored(t, sep, Join(es[1..], sep) + rest);
      JoinScan(pre + [es[0]], es[1..], sep, rest);
      assert pre + [es[0]] + es[1..] == pre + es;
    }
  }

  /**
   * The elements of a one-line array come back in order, whatever separator
   * (commas, spaces, newlines) stands between them.
   */
  lemma ArrayRoundTrip(noise: string, es: seq<string>, sep: string, tail: string)
    requires forall e :: e in es ==> Element(e)
    requires '[' !in noise && '{' !in sep && ']' !in sep
    ensures Extract([noise + "[" + Join(es, sep) + "]" + tail]) == es
  {
    var line := noise + "[" + Join(es, sep) + "]" + tail;
    var b := Scanner(BetweenObjects, "", []);
    var done := Scanner(BetweenObjects, "", es);
    assert line == noise + "[" + (Join(es, sep) + ("]" + tail));
    LeadingNoiseIgnored(noise, Join(es, sep) + ("]" + tail));
    JoinScan([], es, sep, "]" + tail);
    assert [] + es == es;
    CloseBracketEndsLineOnly(done, tail, []);
    assert ScanLine(Start, line) == done;
    assert [line][1..] == [];
    assert ScanLines(Start, [line]) == ScanLines(done, []);
  }

  // ---------------------------------------------------------------------------
  // Line boundaries matter only where a ']' stops a line.

  lemma {:induction false} ScanLineConcat(s: Scanner, a: string, b: string)
    requires !Halts(s, a)
    ensures ScanLine(s, a + b) == ScanLine(ScanLine(s, a), b)
    ensures Halts(s, a + b) == Halts(ScanLine(s, a), b)
    decreases |a|
  {
    if a == [] {
      assert a + b == b;
    } else {
      assert (a + b)[0] == a[0] && (a + b)[1..] == a[1..] + b;
      ScanLineConcat(Step(s, a[0]).value, a[1..], b);
    }
  }

  lemma {:induction false} NoHaltPrefix(s: Scanner, a: string, b: string)
    requires !Halts(s, a + b)
    ensures !Halts(s, a)
    decreases |a|
  {
    if a != [] {
      assert (a + b)[0] == a[0] && (a + b)[1..] == a[1..] + b;
      NoHaltPrefix(Step(s, a[0]).value, a[1..], b);
    }
  }

  lemma {:induction false} SplitLinesConcat(s: string)
    ensures Concat(SplitLines(s)) == s
    ensures forall l :: l in SplitLines(s) ==> l != ""
    decreases |s|
  {
    if s != "" {
      var n := LineLength(s);
      var head, tail := s[..n], s[n..];
      var rest := SplitLines(tail);
      assert SplitLines(s) == [head] + rest;
      SplitLinesConcat(tail);
      assert Concat([head] + rest) == head + Concat(rest) by {
        assert ([head] + rest)[1..] == rest;
      }
      assert head + tail == s;
      assert head != "" by { assert |head| == n; }
    }
  }

  /** Scanning line by line equals scanning the joined text when no line stops early. */
  lemma {:induction false} ScanLinesConcat(s: Scanner, lines: seq<string>, last: string)
    requires !Halts(s, Concat(lines))
    ensures ScanLines(s, lines + [last]) == ScanLine(s, Concat(lines) + last)
    decreases |lines|
  {
    if lines == [] {
      assert Concat(lines) + last == last;
      assert (lines + [last])[1..] == [];
    } else {
      NoHaltPrefix(s, lines[0], Concat(lines[1..]));
      assert Concat(lines) == lines[0] + Concat(lines[1..]);
      ScanLineConcat(s, lines[0], Concat(lines[1..]));
      assert (lines + [last])[0] == lines[0] && (lines + [last])[1..] == lines[1..] + [last];
      ScanLinesConcat(ScanLine(s, lines[0]), lines[1..], last);
      assert Concat(lines) + last == lines[0] + (Concat(lines[1..]) + last);
      ScanLineConcat(s, lines[0], Concat(lines[1..]) + last);
    }
  }

  lemma ConcatSnoc(lines: seq<string>)
    requires lines != []
    ensures Concat(lines) == Concat(lines[..|lines| - 1]) + lines[|lines| - 1]
    decreases |lines|
  {
    if |lines| > 1 {
      ConcatSnoc(lines[1..]);
      assert lines[1..][..|lines| - 2] == lines[..|lines| - 1][1..];
    }
  }

  /** The array text without its closing `]` is scanned without stopping early. */
  lemma BodyRuns(noise: string, es: seq<string>, sep: string)
    requires forall e :: e in es ==> Element(e)
    requires '[' !in noise && '{' !in sep && ']' !in sep
    ensures !Halts(Start, noise + "[" + Join(es, sep))
  {
    LeadingNoiseIgnored(noise, Join(es, sep));
    assert noise + "[" + Join(es, sep) == noise + "[" + (Join(es, sep) + "");
    assert Join(es, sep) + "" == Join(es, sep);
    JoinScan([], es, sep, "");
    LeadingNoiseHalts(noise, Join(es, sep));
  }

  /** Scanning the whole array text reaches its `]` with every element emitted. */
  lemma TextRuns(noise: string, es: seq<string>, sep: string)
    requires forall e :: e in es ==> Element(e)
    requires '[' !in noise && '{' !in sep && ']' !in sep
    ensures ScanLine(Start, noise + "[" + Join(es, sep) + "]") == ScanLine(Scanner(BetweenObjects, "", es), "]")
  {
    LeadingNoiseIgnored(noise, Join(es, sep) + "]");
    assert noise + "[" + Join(es, sep) + "]" == noise + "[" + (Join(es, sep) + "]");
    JoinScan([], es, sep, "]");
    assert [] + es == es;
  }

  /** A text split into leading lines and a last line: the leading lines form a prefix of any text the whole extends by one character. */
  lemma LeadingLinesPrefix(init: seq<string>, last: string, body: string, c: char)
    requires last != "" && Concat(init) + last == body + [c]
    ensures |Concat(init)| <= |body| && body == Concat(init) + body[|Concat(init)|..]
  {
    var p := Concat(init);
    assert (p + last)[..|p|] == p;
    assert (body + [c])[..|p|] == body[..|p|];
  }

  /**
   * load_objects_from_str on a whole array text, with any separators (newlines
   * included) between elements, returns exactly the elements, in order.
   */
  lemma StringRoundTrip(noise: string, es: seq<string>, sep: string)
    requires forall e :: e in es ==> Element(e)
    requires '[' !in noise && '{' !in sep && ']' !in sep
    ensures Extract(SplitLines(noise + "[" + Join(es, sep) + "]")) == es
  {
    var body := noise + "[" + Join(es, sep);
    var text := body + "]";
    var lines := SplitLines(text);
    SplitLinesConcat(text);
    assert lines != [];
    var n := |lines|;
    ConcatSnoc(lines);
    var init, last := lines[..n - 1], lines[n - 1];
    assert last in lines;
    LeadingLinesPrefix(init, last, body, ']');
    var p := Concat(init);
    BodyRuns(noise, es, sep);
    NoHaltPrefix(Start, p, body[|p|..]);
    assert lines == init + [last];
    ScanLinesConcat(Start, init, last);
    TextRuns(noise, es, sep);
  }

  lemma {:induction false} LeadingNoiseHalts(noise: string, rest: string)
    requires '[' !in noise
    ensures Halts(Start, noise + "[" + rest) == Halts(Scanner(BetweenObjects, "", []), rest)
    decreases |noise|
  {
    if noise == [] {
      assert noise + "[" + rest == "[" + rest;
    } else {
      assert (noise + "[" + rest)[1..] == noise[1..] + "[" + rest;
      LeadingNoiseHalts(noise[1..], rest);
    }
  }
}
