/**
 `print_rewrite_file` of monitor/generate.py: a line-by-line treatment of the conditional
 compilation directives of Verilog (section 19.4 of IEEE 1364-2005) with a stack of open
 flags and a dictionary of the values they are assumed to have.

 The loop itself works on the text of the lines.  In what is said about it they are
 classified, and `rewrite` stands for the textual replacements applied to the lines kept.
 */
module Rewrite {
  import opened RewriteLines

  datatype State = State(stack: seq<string>, flags: map<string, bool>, out: seq<string>)

  /** The ways a run can end: normally, by the assertion on nested flags, or by a missing flag or an empty stack. */
  datatype Outcome = Done(state: State) | AssertionError | IndexError

  // ----------------------------------------------------------------------------------
  // The loop
  // ----------------------------------------------------------------------------------

  /** `expected_flags.get(flag, False)` */
  predicate Expected(expected: map<string, bool>, flag: string) {
    flag in expected && expected[flag]
  }

  /** No open flag has a value other than the expected one. */
  ghost predicate Active(expected: map<string, bool>, flags: map<string, bool>) {
    forall flag | flag in flags :: flags[flag] == Expected(expected, flag)
  }

  ghost function Step(st: State, line: Line, expected: map<string, bool>, rewrite: string -> string): Outcome {
    match line
    case Ifdef(flag) =>
      if flag in st.flags then AssertionError
      else Done(State(st.stack + [flag], st.flags[flag := true], st.out))
    case Ifndef(flag) =>
      if flag in st.flags then AssertionError
      else Done(State(st.stack + [flag], st.flags[flag := false], st.out))
    case Else =>
      if st.stack == [] then IndexError
      else
        var flag := st.stack[|st.stack| - 1];
        Done(st.(flags := st.flags[flag := !(flag in st.flags && st.flags[flag])]))
    case Endif =>
      if st.stack == [] then IndexError
      else Done(State(st.stack[..|st.stack| - 1], st.flags - {st.stack[|st.stack| - 1]}, st.out))
    case Text(text) =>
      if Active(expected, st.flags) then Done(st.(out := st.out + [rewrite(text)])) else Done(st)
    case Malformed => IndexError
  }

  ghost function Run(st: State, lines: seq<Line>, expected: map<string, bool>, rewrite: string -> string): Outcome
    decreases |lines|
  {
    if lines == [] then Done(st)
    else
      match Step(st, lines[0], expected, rewrite)
      case Done(st') => Run(st', lines[1..], expected, rewrite)
      case AssertionError => AssertionError
      case IndexError => IndexError
  }

  const EMPTY := State([], map[], [])

  /** The flags with a value are the flags on the stack, each of them once. */
  ghost predicate Consistent(stack: seq<string>, flags: map<string, bool>) {
    && (forall flag :: flag in flags <==> flag in stack)
    && (forall i, j | 0 <= i < j < |stack| :: stack[i] != stack[j])
  }

  /** What every step keeps. */
  lemma StepKeepsConsistent(st: State, line: Line, expected: map<string, bool>, rewrite: string -> string)
    requires Consistent(st.stack, st.flags)
    requires Step(st, line, expected, rewrite).Done?
    ensures var st' := Step(st, line, expected, rewrite).state; Consistent(st'.stack, st'.flags)
  {
    var st' := Step(st, line, expected, rewrite).state;
    if line.Endif? {
      var top := st.stack[|st.stack| - 1];
      assert st.stack == st'.stack + [top];
      assert forall i | 0 <= i < |st'.stack| :: st'.stack[i] == st.stack[i];
    } else if line.Else? {
      assert st.stack[|st.stack| - 1] in st.flags;
    }
  }

  function Rewriter(table: seq<(Pattern, string)>): string -> string {
    text => ReplaceAll(text, table)
  }

  /** The loop over the replacement table. */
  method RewriteLine(line: string, table: seq<(Pattern, string)>) returns (text: string)
    ensures text == Rewriter(table)(line)
  {
    text := line;
    for j := 0 to |table|
      invariant text == ReplaceAll(line, table[..j])
    {
      assert table[..j + 1][..j] == table[..j];
      text := Replace(text, table[j].0, table[j].1);
    }
    assert table[..|table|] == table;
  }

  /** The loop over the lines, with `flag_stack` and `flags` updated line by line. */
  method RewriteFile(lines: seq<string>, expected: map<string, bool>, table: seq<(Pattern, string)>) returns (r: Outcome)
    ensures r == Run(EMPTY, Classified(lines), expected, Rewriter(table))
    ensures r.Done? ==> Consistent(r.state.stack, r.state.flags)
  {
    var flagStack: seq<string>, flags: map<string, bool>, out: seq<string> := [], map[], [];
    ghost var all, rewrite := Classified(lines), Rewriter(table);
    for i := 0 to |lines|
      invariant Consistent(flagStack, flags)
      invariant Run(EMPTY, all, expected, rewrite) == Run(State(flagStack, flags, out), all[i..], expected, rewrite)
    {
      ghost var st := State(flagStack, flags, out);
      assert all[i..][0] == Classify(lines[i]) && all[i..][1..] == all[i + 1..];
      var line := lines[i];
      if IFDEF + " " <= line {
        if |Split(line)| <= 1 { return IndexError; }
        var flag := Split(line)[1];
        if flag in flags { return AssertionError; }
        flagStack := flagStack + [flag];
        flags := flags[flag := true];
      } else if IFNDEF + " " <= line {
        if |Split(line)| <= 1 { return IndexError; }
        var flag := Split(line)[1];
        if flag in flags { return AssertionError; }
        flagStack := flagStack + [flag];
        flags := flags[flag := false];
      } else if "`else" <= line {
        if flagStack == [] { return IndexError; }
        var flag := flagStack[|flagStack| - 1];
        assert flag in flags;
        flags := flags[flag := !flags[flag]];
      } else if "`endif" <= line {
        if flagStack == [] { return IndexError; }
        var flag := flagStack[|flagStack| - 1];
        flagStack := flagStack[..|flagStack| - 1];
        flags := flags - {flag};
      } else if forall flag | flag in flags :: flags[flag] == Expected(expected, flag) {
        var text := RewriteLine(line, table);
        out := out + [text];
      }
      assert Done(State(flagStack, flags, out)) == Step(st, Classify(lines[i]), expected, rewrite);
      StepKeepsConsistent(st, Classify(lines[i]), expected, rewrite);
    }
    r := Done(State(flagStack, flags, out));
  }

  // ----------------------------------------------------------------------------------
  // Conditional compilation
  // ----------------------------------------------------------------------------------

  /** Well-nested source text: a list of lines and conditional blocks. */
  datatype Source =
    | Nothing
    | Plain(text: string, rest: Source)
    | Block(positive: bool, flag: string, body: Source, rest: Source)
    | BlockElse(positive: bool, flag: string, body: Source, alternative: Source, rest: Source)

  function Opening(positive: bool, flag: string): Line {
    if positive then Ifdef(flag) else Ifndef(flag)
  }

  function Flatten(s: Source): seq<Line> {
    match s
    case Nothing => []
    case Plain(text, rest) => [Text(text)] + Flatten(rest)
    case Block(positive, flag, body, rest) =>
      [Opening(positive, flag)] + Flatten(body) + [Endif] + Flatten(rest)
    case BlockElse(positive, flag, body, alternative, rest) =>
      [Opening(positive, flag)] + Flatten(body) + [Else] + Flatten(alternative) + [Endif] + Flatten(rest)
  }

  /** The macros that a compiler would have to define. */
  function Defined(expected: map<string, bool>): set<string> {
    set flag | flag in expected && expected[flag]
  }

  /** The lines that a compiler keeps, with exactly those macros defined. */
  function Kept(s: Source, expected: map<string, bool>, rewrite: string -> string): seq<string> {
    match s
    case Nothing => []
    case Plain(text, rest) => [rewrite(text)] + Kept(rest, expected, rewrite)
    case Block(positive, flag, body, rest) =>
      (if (flag in Defined(expected)) == positive then Kept(body, expected, rewrite) else [])
      + Kept(rest, expected, rewrite)
    case BlockElse(positive, flag, body, alternative, rest) =>
      (if (flag in Defined(expected)) == positive then Kept(body, expected, rewrite)
       else Kept(alternative, expected, rewrite))
      + Kept(rest, expected, rewrite)
  }

  /** No block on a flag stands inside another block on the same flag or inside a block on one of `open`. */
  predicate NotSelfNested(s: Source, open: set<string>) {
    match s
    case Nothing => true
    case Plain(text, rest) => NotSelfNested(rest, open)
    case Block(positive, flag, body, rest) =>
      flag !in open && NotSelfNested(body, open + {flag}) && NotSelfNested(rest, open)
    case BlockElse(positive, flag, body, alternative, rest) =>
      && flag !in open
      && NotSelfNested(body, open + {flag}) && NotSelfNested(alternative, open + {flag})
      && NotSelfNested(rest, open)
  }

  /** The state with lines added to the output if the open flags allow it. */
  ghost function Emit(st: State, lines: seq<string>, expected: map<string, bool>): State {
    if Active(expected, st.flags) then st.(out := st.out + lines) else st
  }

  ghost function Then(r: Outcome, lines: seq<Line>, expected: map<string, bool>, rewrite: string -> string): Outcome {
    match r
    case Done(st) => Run(st, lines, expected, rewrite)
    case AssertionError => AssertionError
    case IndexError => IndexError
  }

  lemma {:induction false} RunAppend(st: State, a: seq<Line>, b: seq<Line>, expected: map<string, bool>,
                                     rewrite: string -> string)
    ensures Run(st, a + b, expected, rewrite) == Then(Run(st, a, expected, rewrite), b, expected, rewrite)
    decreases |a|
  {
    if a == [] {
      assert a + b == b;
    } else {
      assert (a + b)[0] == a[0] && (a + b)[1..] == a[1..] + b;
      var r := Step(st, a[0], expected, rewrite);
      if r.Done? { RunAppend(r.state, a[1..], b, expected, rewrite); }
    }
  }

  /** A line in front. */
  lemma RunCons(st: State, line: Line, b: seq<Line>, expected: map<string, bool>, rewrite: string -> string)
    ensures Run(st, [line] + b, expected, rewrite) == Then(Step(st, line, expected, rewrite), b, expected, rewrite)
  {
    assert ([line] + b)[0] == line && ([line] + b)[1..] == b;
  }

  /** Opening, running and closing a block whose parts behave. */
  lemma OpenFlag(st: State, positive: bool, flag: string, expected: map<string, bool>, rewrite: string -> string)
    returns (inner: State)
    requires Consistent(st.stack, st.flags)
    ensures inner == State(st.stack + [flag], st.flags[flag := positive], st.out)
    ensures flag in st.flags ==> Step(st, Opening(positive, flag), expected, rewrite) == AssertionError
    ensures flag !in st.flags ==>
              && Step(st, Opening(positive, flag), expected, rewrite) == Done(inner)
              && Consistent(inner.stack, inner.flags)
              && (Active(expected, inner.flags) <==> Active(expected, st.flags) && positive == Expected(expected, flag))
              && inner.flags.Keys == st.flags.Keys + {flag}
  {
    inner := State(st.stack + [flag], st.flags[flag := positive], st.out);
    if flag !in st.flags {
      StepKeepsConsistent(st, Opening(positive, flag), expected, rewrite);
      if Active(expected, inner.flags) {
        assert inner.flags[flag] == positive;
        forall f | f in st.flags ensures st.flags[f] == Expected(expected, f) {
          assert inner.flags[f] == st.flags[f];
        }
      }
    }
  }

  /** Flattened text runs to its meaning, or hits the assertion exactly when a flag is nested inside itself. */
  lemma {:induction false} RunFlattened(s: Source, st: State, expected: map<string, bool>, rewrite: string -> string)
    requires Consistent(st.stack, st.flags)
    ensures Run(st, Flatten(s), expected, rewrite) ==
            if NotSelfNested(s, st.flags.Keys) then Done(Emit(st, Kept(s, expected, rewrite), expected))
            else AssertionError
    decreases s
  {
    match s
    case Nothing =>
      assert st.out + [] == st.out;
    case Plain(text, rest) =>
      RunCons(st, Text(text), Flatten(rest), expected, rewrite);
      var st' := Step(st, Text(text), expected, rewrite).state;
      RunFlattened(rest, st', expected, rewrite);
      assert st.out + [rewrite(text)] + Kept(rest, expected, rewrite) == st.out + Kept(s, expected, rewrite);
    case Block(positive, flag, body, rest) =>
      RunBlock(s, st, expected, rewrite);
    case BlockElse(positive, flag, body, alternative, rest) =>
      RunBlockElse(s, st, expected, rewrite);
  }

  /** Closing a block restores the flags that were open before it. */
  lemma CloseFlag(st: State, flag: string, value: bool, out: seq<string>, expected: map<string, bool>,
                  rewrite: string -> string)
    requires flag !in st.flags
    ensures Step(State(st.stack + [flag], st.flags[flag := value], out), Endif, expected, rewrite)
            == Done(State(st.stack, st.flags, out))
  {
    assert (st.stack + [flag])[..|st.stack|] == st.stack;
    assert st.flags[flag := value] - {flag} == st.flags;
  }

  lemma {:induction false} RunBlock(s: Source, st: State, expected: map<string, bool>, rewrite: string -> string)
    requires s.Block? && Consistent(st.stack, st.flags)
    ensures Run(st, Flatten(s), expected, rewrite) ==
            if NotSelfNested(s, st.flags.Keys) then Done(Emit(st, Kept(s, expected, rewrite), expected))
            else AssertionError
    decreases s, 0
  {
    var tail := [Endif] + Flatten(s.rest);
    assert Flatten(s) == [Opening(s.positive, s.flag)] + (Flatten(s.body) + tail);
    RunCons(st, Opening(s.positive, s.flag), Flatten(s.body) + tail, expected, rewrite);
    var inner := OpenFlag(st, s.positive, s.flag, expected, rewrite);
    if s.flag !in st.flags {
      RunAppend(inner, Flatten(s.body), tail, expected, rewrite);
      RunFlattened(s.body, inner, expected, rewrite);
      if NotSelfNested(s.body, inner.flags.Keys) {
        var closing := Emit(inner, Kept(s.body, expected, rewrite), expected);
        RunCons(closing, Endif, Flatten(s.rest), expected, rewrite);
        CloseFlag(st, s.flag, s.positive, closing.out, expected, rewrite);
        var after := State(st.stack, st.flags, closing.out);
        RunFlattened(s.rest, after, expected, rewrite);
        assert Run(st, Flatten(s), expected, rewrite) == Run(after, Flatten(s.rest), expected, rewrite);
        JoinOutput(st, closing.out,
                   if s.positive == Expected(expected, s.flag) then Kept(s.body, expected, rewrite) else [],
                   Kept(s.rest, expected, rewrite), expected);
      }
    }
  }

  /** Output of a block followed by output of the rest. */
  lemma JoinOutput(st: State, out: seq<string>, a: seq<string>, b: seq<string>, expected: map<string, bool>)
    requires out == if Active(expected, st.flags) then st.out + a else st.out
    ensures Emit(State(st.stack, st.flags, out), b, expected) == Emit(st, a + b, expected)
  {
    assert st.out + a + b == st.out + (a + b);
  }

  lemma {:induction false} RunBlockElse(s: Source, st: State, expected: map<string, bool>, rewrite: string -> string)
    requires s.BlockElse? && Consistent(st.stack, st.flags)
    ensures Run(st, Flatten(s), expected, rewrite) ==
            if NotSelfNested(s, st.flags.Keys) then Done(Emit(st, Kept(s, expected, rewrite), expected))
            else AssertionError
    decreases s, 1
  {
    var tail := [Endif] + Flatten(s.rest);
    var middle := [Else] + (Flatten(s.alternative) + tail);
    assert Flatten(s) == [Opening(s.positive, s.flag)] + (Flatten(s.body) + middle);
    RunCons(st, Opening(s.positive, s.flag), Flatten(s.body) + middle, expected, rewrite);
    var inner := OpenFlag(st, s.positive, s.flag, expected, rewrite);
    if s.flag !in st.flags {
      RunAppend(inner, Flatten(s.body), middle, expected, rewrite);
      RunFlattened(s.body, inner, expected, rewrite);
      if NotSelfNested(s.body, inner.flags.Keys) {
        var mid := Emit(inner, Kept(s.body, expected, rewrite), expected);
        RunCons(mid, Else, Flatten(s.alternative) + tail, expected, rewrite);
        RunAlternative(s, st, mid.out, expected, rewrite);
      }
    }
  }

  /** From the `else line on. */
  lemma {:induction false} RunAlternative(s: Source, st: State, out: seq<string>, expected: map<string, bool>,
                                          rewrite: string -> string)
    requires s.BlockElse? && Consistent(st.stack, st.flags) && s.flag !in st.flags
    requires out == if Active(expected, st.flags) && s.positive == Expected(expected, s.flag)
                    then st.out + Kept(s.body, expected, rewrite) else st.out
    ensures var mid := State(st.stack + [s.flag], st.flags[s.flag := s.positive], out);
            var tail := [Endif] + Flatten(s.rest);
            Then(Step(mid, Else, expected, rewrite), Flatten(s.alternative) + tail, expected, rewrite) ==
            if NotSelfNested(s.alternative, st.flags.Keys + {s.flag}) && NotSelfNested(s.rest, st.flags.Keys)
            then Done(Emit(st, Kept(s, expected, rewrite), expected))
            else AssertionError
    decreases s, 0
  {
    var mid := State(st.stack + [s.flag], st.flags[s.flag := s.positive], out);
    var tail := [Endif] + Flatten(s.rest);
    var other := OpenFlag(State(st.stack, st.flags, out), !s.positive, s.flag, expected, rewrite);
    assert st.flags[s.flag := s.positive][s.flag := !s.positive] == st.flags[s.flag := !s.positive];
    assert Step(mid, Else, expected, rewrite) == Done(other);
    RunAppend(other, Flatten(s.alternative), tail, expected, rewrite);
    RunFlattened(s.alternative, other, expected, rewrite);
    if NotSelfNested(s.alternative, other.flags.Keys) {
      var closing := Emit(other, Kept(s.alternative, expected, rewrite), expected);
      RunCons(closing, Endif, Flatten(s.rest), expected, rewrite);
      CloseFlag(st, s.flag, !s.positive, closing.out, expected, rewrite);
      RunFlattened(s.rest, State(st.stack, st.flags, closing.out), expected, rewrite);
      JoinOutput(st, closing.out,
                 if s.positive == Expected(expected, s.flag) then Kept(s.body, expected, rewrite)
                 else Kept(s.alternative, expected, rewrite),
                 Kept(s.rest, expected, rewrite), expected);
    }
  }

  /**
   The loop implements conditional compilation: on every well-nested text it emits exactly the
   lines that a compiler keeps and ends with nothing open, if no flag is nested inside itself;
   otherwise, and only then, it stops at the assertion.
   */
  lemma RewriteIsConditionalCompilation(s: Source, expected: map<string, bool>, rewrite: string -> string)
    ensures Run(EMPTY, Flatten(s), expected, rewrite) ==
            if NotSelfNested(s, {}) then Done(State([], map[], Kept(s, expected, rewrite))) else AssertionError
  {
    RunFlattened(s, EMPTY, expected, rewrite);
    assert EMPTY.flags.Keys == {};
    assert [] + Kept(s, expected, rewrite) == Kept(s, expected, rewrite);
  }

  /** A directive that closes or switches nothing stops the loop with an index error, whatever follows. */
  lemma StrayDirectiveStops(s: Source, stray: Line, rest: seq<Line>, expected: map<string, bool>,
                            rewrite: string -> string)
    requires NotSelfNested(s, {}) && (stray.Endif? || stray.Else? || stray.Malformed?)
    ensures Run(EMPTY, Flatten(s) + ([stray] + rest), expected, rewrite) == IndexError
  {
    RewriteIsConditionalCompilation(s, expected, rewrite);
    RunAppend(EMPTY, Flatten(s), [stray] + rest, expected, rewrite);
    RunCons(State([], map[], Kept(s, expected, rewrite)), stray, rest, expected, rewrite);
  }

  // ----------------------------------------------------------------------------------
  // Text
  // ----------------------------------------------------------------------------------

  /** Every line of the text can be spelled. */
  predicate IsText(s: Source) {
    forall i | 0 <= i < |Flatten(s)| :: Spellable(Flatten(s)[i])
  }

  /** The text of a source, with its directives spelled in the usual way. */
  function TextOf(s: Source): (lines: seq<string>)
    requires IsText(s)
    ensures |lines| == |Flatten(s)|
  {
    seq(|Flatten(s)|, i requires 0 <= i < |Flatten(s)| => Spelled(Flatten(s)[i]))
  }

  /**
   The same for text: the lines that come out are the lines that a compiler keeps, with the
   replacements of the table applied in its order.
   */
  lemma TextIsCompiled(s: Source, expected: map<string, bool>, table: seq<(Pattern, string)>)
    requires IsText(s)
    ensures Run(EMPTY, Classified(TextOf(s)), expected, Rewriter(table)) ==
            if NotSelfNested(s, {}) then Done(State([], map[], Kept(s, expected, Rewriter(table))))
            else AssertionError
  {
    forall i | 0 <= i < |Flatten(s)| ensures Classified(TextOf(s))[i] == Flatten(s)[i] {
      ClassifySpelled(Flatten(s)[i]);
    }
    assert Classified(TextOf(s)) == Flatten(s);
    RewriteIsConditionalCompilation(s, expected, Rewriter(table));
  }
}
