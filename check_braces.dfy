/** The brace matcher of HW5: one pass over a string with a stack of
    opening braces, stopping at the first closing brace that has no
    opener (`error` 2) or the wrong one (`error` 1). The pass visits
    positions 0 to length-2. */
module Braces {

  predicate IsOpener(c: char) {
    c == '(' || c == '[' || c == '{'
  }

  predicate IsCloser(c: char) {
    c == ')' || c == ']' || c == '}'
  }

  /** The closing brace for an opener. */
  function Closer(c: char): (d: char)
    requires IsOpener(c)
    ensures IsCloser(d)
  {
    if c == '(' then ')' else if c == '[' then ']' else '}'
  }

  /** The opening brace for a closer. */
  function Opener(c: char): (d: char)
    requires IsCloser(c)
    ensures IsOpener(d) && Closer(d) == c
  {
    if c == ')' then '(' else if c == ']' then '[' else '{'
  }

  /** The stack (top last), the last `expect` set, and the error code. */
  datatype State = State(stack: seq<char>, expected: char, error: int)

  /** Where a pass stopped (`i`) and the state it left. */
  datatype Outcome = Outcome(i: int, st: State)

  const Start := State([], ' ', 0)

  /** The effect of one character on a state without error: an opener is
      pushed and sets `expect`; a closer fails on an empty stack, pops and
      fails on the wrong opener, and pops otherwise; anything else is
      skipped. */
  function Step(st: State, c: char): (r: State)
    ensures IsOpener(c) ==> r == st.(stack := st.stack + [c], expected := Closer(c))
    ensures IsCloser(c) && st.stack == [] ==> r == st.(error := 2)
    ensures IsCloser(c) && st.stack != [] ==>
      r.stack == st.stack[..|st.stack| - 1] && r.expected == st.expected &&
      r.error == (if st.stack[|st.stack| - 1] == Opener(c) then st.error else 1)
    ensures !IsOpener(c) && !IsCloser(c) ==> r == st
  {
    var st1 :=
      if IsOpener(c) then
        var pushed := st.stack + [c];
        var top := pushed[|pushed| - 1];
        st.(stack := pushed, expected := if top == '(' then ')' else if top == '[' then ']' else '}')
      else st;
    if IsCloser(c) then
      if st1.stack == [] then st1.(error := 2)
      else if st1.stack[|st1.stack| - 1] != Opener(c) then st1.(error := 1, stack := st1.stack[..|st1.stack| - 1])
      else st1.(stack := st1.stack[..|st1.stack| - 1])
    else st1
  }

  /** Scans `cs` from `st` until a step sets an error: `i` is the position of
      that character, or `|cs|` when there is none. */
  function Run(cs: seq<char>, st: State): (r: Outcome)
    requires st.error == 0
    ensures 0 <= r.i <= |cs|
    ensures r.st.error == 0 || r.st.error == 1 || r.st.error == 2
    ensures r.st.error == 0 <==> r.i == |cs|
    ensures r.st.error != 0 ==> IsCloser(cs[r.i])
    ensures r.st.error == 2 ==> r.st.stack == []
    decreases |cs|
  {
    if cs == [] then Outcome(0, st)
    else
      var st1 := Step(st, cs[0]);
      if st1.error != 0 then Outcome(0, st1)
      else
        var r := Run(cs[1..], st1);
        Outcome(r.i + 1, r.st)
  }

  /** The characters the pass visits: all but the last. */
  function Scanned(s: string): seq<char> {
    if |s| == 0 then [] else s[..|s| - 1]
  }

  /** The outcome of the pass over `s`. */
  function Check(s: string): Outcome {
    Run(Scanned(s), Start)
  }

  /** Scanning `a + b` is scanning `a`, then, if no error, `b` on from there. */
  lemma {:induction false} RunAppend(a: seq<char>, b: seq<char>, st: State)
    requires st.error == 0
    ensures Run(a, st).st.error != 0 ==> Run(a + b, st) == Run(a, st)
    ensures Run(a, st).st.error == 0 ==>
      Run(a + b, st) == Outcome(|a| + Run(b, Run(a, st).st).i, Run(b, Run(a, st).st).st)
    decreases |a|
  {
    if a == [] {
      assert a + b == b;
    } else {
      assert (a + b)[0] == a[0] && (a + b)[1..] == a[1..] + b;
      if Step(st, a[0]).error == 0 {
        RunAppend(a[1..], b, Step(st, a[0]));
      }
    }
  }

  /** The last character of the input never affects the outcome. */
  lemma LastIgnored(s: string, c: char, d: char)
    ensures Check(s + [c]) == Check(s + [d])
  {
    assert Scanned(s + [c]) == s == Scanned(s + [d]);
  }

  /** The brace pass as written: a counted loop over positions 0 to
      length-2 with early exits. */
  method CheckBraces(s: string) returns (error: int, i: int, expected: char, stack: seq<char>)
    ensures Outcome(i, State(stack, expected, error)) == Check(s)
  {
    stack := [];
    error := 0;
    expected := ' ';
    ghost var cs := Scanned(s);
    i := 0;
    while i < |s| - 1
      invariant 0 <= i <= |cs| && error == 0
      invariant Check(s) == Outcome(i + Run(cs[i..], State(stack, expected, 0)).i, Run(cs[i..], State(stack, expected, 0)).st)
      decreases |s| - i
    {
      ghost var st := State(stack, expected, 0);
      assert cs[i..][0] == s[i] && cs[i..][1..] == cs[i + 1..];
      if s[i] == '(' || s[i] == '[' || s[i] == '{' {
        stack := stack + [s[i]];
        var top := stack[|stack| - 1];
        if top == '(' {
          expected := ')';
        } else if top == '[' {
          expected := ']';
        } else if top == '{' {
          expected := '}';
        }
      }
      if s[i] == ')' {
        if stack == [] {
          error := 2;
          break;
        } else if stack[|stack| - 1] != '(' {
          error := 1;
          stack := stack[..|stack| - 1];
          break;
        } else {
          stack := stack[..|stack| - 1];
        }
      } else if s[i] == ']' {
        if stack == [] {
          error := 2;
          break;
        } else if stack[|stack| - 1] != '[' {
          error := 1;
          stack := stack[..|stack| - 1];
          break;
        } else {
          stack := stack[..|stack| - 1];
        }
      } else if s[i] == '}' {
        if stack == [] {
          error := 2;
          break;
        } else if stack[|stack| - 1] != '{' {
          error := 1;
          stack := stack[..|stack| - 1];
          break;
        } else {
          stack := stack[..|stack| - 1];
        }
      }
      assert State(stack, expected, 0) == Step(st, s[i]);
      i := i + 1;
    }
  }

  // ---------------------------------------------------------------------
  // Properly nested text

  /** Text built from non-brace characters and brace groups, each an opener,
      nested text, and the matching closer. */
  datatype Piece = Text(c: char) | Group(open: char, body: seq<Piece>)

  predicate WellFormed(ps: seq<Piece>)
    decreases ps
  {
    forall k :: 0 <= k < |ps| ==> WellFormedPiece(ps[k])
  }

  predicate WellFormedPiece(p: Piece)
    decreases p
  {
    match p
    case Text(c) => !IsOpener(c) && !IsCloser(c)
    case Group(o, body) => IsOpener(o) && WellFormed(body)
  }

  /** The characters of a sequence of pieces. */
  function Flatten(ps: seq<Piece>): seq<char>
    requires WellFormed(ps)
    decreases ps
  {
    if ps == [] then [] else FlattenPiece(ps[0]) + Flatten(ps[1..])
  }

  function FlattenPiece(p: Piece): seq<char>
    requires WellFormedPiece(p)
    decreases p
  {
    match p
    case Text(c) => [c]
    case Group(o, body) => [o] + Flatten(body) + [Closer(o)]
  }

  /** The `expect` left by scanning nested text: the closer of the last
      opener in it, or `e` when it has none. */
  function ExpectAfter(ps: seq<Piece>, e: char): char
    requires WellFormed(ps)
    decreases ps
  {
    if ps == [] then e else ExpectAfter(ps[1..], ExpectAfterPiece(ps[0], e))
  }

  function ExpectAfterPiece(p: Piece, e: char): char
    requires WellFormedPiece(p)
    decreases p
  {
    match p
    case Text(_) => e
    case Group(o, body) => ExpectAfter(body, Closer(o))
  }

  /** Nested text leaves the stack as it found it and raises no error. */
  lemma {:induction false} RunNested(ps: seq<Piece>, st: State)
    requires WellFormed(ps) && st.error == 0
    ensures Run(Flatten(ps), st) == Outcome(|Flatten(ps)|, st.(expected := ExpectAfter(ps, st.expected)))
    decreases ps
  {
    if ps != [] {
      RunNestedPiece(ps[0], st);
      var st1 := st.(expected := ExpectAfterPiece(ps[0], st.expected));
      RunNested(ps[1..], st1);
      RunAppend(FlattenPiece(ps[0]), Flatten(ps[1..]), st);
    }
  }

  lemma {:induction false} RunNestedPiece(p: Piece, st: State)
    requires WellFormedPiece(p) && st.error == 0
    ensures Run(FlattenPiece(p), st) == Outcome(|FlattenPiece(p)|, st.(expected := ExpectAfterPiece(p, st.expected)))
    decreases p
  {
    match p
    case Text(c) =>
    case Group(o, body) =>
      var pushed := st.(stack := st.stack + [o], expected := Closer(o));
      assert Step(st, o) == pushed;
      RunNested(body, pushed);
      var inner := Run(Flatten(body), pushed);
      var after := pushed.(expected := ExpectAfter(body, Closer(o)));
      assert Step(after, Closer(o)) == st.(expected := ExpectAfter(body, Closer(o))) by {
        assert after.stack[..|after.stack| - 1] == st.stack;
      }
      RunAppend([o], Flatten(body) + [Closer(o)], st);
      RunAppend(Flatten(body), [Closer(o)], pushed);
      assert FlattenPiece(p) == [o] + (Flatten(body) + [Closer(o)]);
  }

  /** A properly nested string, followed by any last character, passes with
      no error and an empty stack. */
  lemma NestedPasses(ps: seq<Piece>, c: char)
    requires WellFormed(ps)
    ensures Check(Flatten(ps) + [c]).st.error == 0
    ensures Check(Flatten(ps) + [c]).st.stack == []
    ensures Check(Flatten(ps) + [c]).i == |Flatten(ps)|
  {
    assert Scanned(Flatten(ps) + [c]) == Flatten(ps);
    RunNested(ps, Start);
  }

  /** Openers left unclosed at the end are not an error. */
  lemma UnclosedNoError()
    ensures Check("((x").st.error == 0 && Check("((x").st.stack == ['(', '(']
  {
    assert Scanned("((x") == "((";
  }

  /** A closer with nothing open stops the pass at that character with
      error 2. */
  lemma NoOpenerExample()
    ensures Check("a)bc") == Outcome(1, State([], ' ', 2))
  {
    assert Scanned("a)bc") == "a)b";
  }

  /** After a mismatch `expect` names the closer of the last opener pushed,
      not of the opener the stray closer met: in "[()}" the `}` meets `[`
      but `expect` is still `)`. */
  lemma StaleExpect()
    ensures Check("[()}x") == Outcome(3, State([], ')', 1))
  {
    assert Scanned("[()}x") == "[()}";
  }
}
