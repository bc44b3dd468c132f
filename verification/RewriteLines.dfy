/**
 The lines that `print_rewrite_file` of monitor/generate.py reads: how it recognises the
 directives of conditional compilation, and the textual replacements it applies to the lines
 it keeps.
 */
module RewriteLines {

  /** What a line means to the loop; `Malformed` is a directive without the flag it needs. */
  datatype Line = Ifdef(flag: string) | Ifndef(flag: string) | Else | Endif | Text(text: string) | Malformed

  // ----------------------------------------------------------------------------------
  // Words of a line
  // ----------------------------------------------------------------------------------

  /** The blanks among the ASCII characters, as Python's `str.split` sees them. */
  predicate IsBlank(ch: char) {
    9 <= ch as int <= 13 || 28 <= ch as int <= 32
  }

  /** They are tab, line feed, vertical tab, form feed, carriage return, four separators and the space. */
  lemma Blanks(ch: char)
    ensures IsBlank(ch) <==> ch in "\t\n\U{0b}\U{0c}\r\U{1c}\U{1d}\U{1e}\U{1f} "
  {
    var blanks := "\t\n\U{0b}\U{0c}\r\U{1c}\U{1d}\U{1e}\U{1f} ";
    if IsBlank(ch) {
      var n := ch as int;
      assert ch == blanks[if n <= 13 then n - 9 else n - 23];
    }
  }

  /** The length of the word at the start of the text. */
  function WordLength(s: string): (n: nat)
    ensures n <= |s|
    ensures forall i | 0 <= i < n :: !IsBlank(s[i])
    ensures n < |s| ==> IsBlank(s[n])
  {
    if s == "" || IsBlank(s[0]) then 0 else 1 + WordLength(s[1..])
  }

  /** `str.split()` */
  function Split(s: string): seq<string>
    decreases |s|
  {
    if s == "" then []
    else if IsBlank(s[0]) then Split(s[1..])
    else [s[..WordLength(s)]] + Split(s[WordLength(s)..])
  }

  const IFDEF := "`ifdef"
  const IFNDEF := "`ifndef"

  /** The loop's reading of a line, in the order of its tests. */
  function Classify(line: string): Line {
    if IFDEF + " " <= line then
      if |Split(line)| > 1 then Ifdef(Split(line)[1]) else Malformed
    else if IFNDEF + " " <= line then
      if |Split(line)| > 1 then Ifndef(Split(line)[1]) else Malformed
    else if "`else" <= line then Else
    else if "`endif" <= line then Endif
    else Text(line)
  }

  function Classified(lines: seq<string>): (r: seq<Line>)
    ensures |r| == |lines|
  {
    seq(|lines|, i requires 0 <= i < |lines| => Classify(lines[i]))
  }

  // ----------------------------------------------------------------------------------
  // Spelling
  // ----------------------------------------------------------------------------------

  /** A flag is one word; other text does not look like a directive. */
  predicate Spellable(line: Line) {
    match line
    case Ifdef(flag) => flag != "" && WordLength(flag) == |flag|
    case Ifndef(flag) => flag != "" && WordLength(flag) == |flag|
    case Text(text) => Classify(text).Text?
    case Else => true
    case Endif => true
    case Malformed => false
  }

  /** The usual spelling of a line. */
  function Spelled(line: Line): string
    requires Spellable(line)
  {
    match line
    case Ifdef(flag) => IFDEF + " " + flag + "\n"
    case Ifndef(flag) => IFNDEF + " " + flag + "\n"
    case Text(text) => text
    case Else => "`else\n"
    case Endif => "`endif\n"
  }

  /** Blanks separate: the words of a text are those before a blank and those behind it. */
  lemma {:induction false} SplitAtBlank(s: string, blank: char, t: string)
    requires IsBlank(blank)
    ensures Split(s + [blank] + t) == Split(s) + Split(t)
    decreases |s|
  {
    var all := s + [blank] + t;
    if s == "" {
      assert all[1..] == t;
    } else if IsBlank(s[0]) {
      assert all[1..] == s[1..] + [blank] + t;
      SplitAtBlank(s[1..], blank, t);
    } else {
      var n := WordLength(s);
      WordEnds(s, [blank] + t);
      assert all == s + ([blank] + t);
      assert all[..n] == s[..n] && all[n..] == s[n..] + [blank] + t;
      SplitAtBlank(s[n..], blank, t);
      assert [s[..n]] + Split(s[n..]) + Split(t) == [s[..n]] + (Split(s[n..]) + Split(t));
    }
  }

  /** A word in front of a blank ends where it ends. */
  lemma {:induction false} WordEnds(s: string, rest: string)
    requires rest != "" && IsBlank(rest[0])
    ensures WordLength(s + rest) == WordLength(s)
  {
    if s == "" {
      assert s + rest == rest;
    } else {
      assert (s + rest)[1..] == s[1..] + rest;
      if !IsBlank(s[0]) { WordEnds(s[1..], rest); }
    }
  }

  /** A text without blanks is one word, if it is not empty. */
  lemma SplitOneWord(w: string)
    requires w != "" && forall i | 0 <= i < |w| :: !IsBlank(w[i])
    ensures Split(w) == [w]
  {
    var n := WordLength(w);
    assert n == |w|;
    assert w[..n] == w && w[n..] == "" && Split("") == [];
    assert Split(w) == [w[..n]] + Split(w[n..]);
  }

  /** A directive and what follows it. */
  lemma SplitDirective(directive: string, rest: string)
    requires directive != "" && forall i | 0 <= i < |directive| :: !IsBlank(directive[i])
    ensures Split(directive + " " + rest) == [directive] + Split(rest)
  {
    assert directive + " " + rest == directive + [' '] + rest;
    SplitAtBlank(directive, ' ', rest);
    SplitOneWord(directive);
  }

  /** Every line that starts like a directive: its flag is the first word behind it, if there is one. */
  lemma ClassifyIfdef(rest: string)
    ensures Classify(IFDEF + " " + rest) == if Split(rest) == [] then Malformed else Ifdef(Split(rest)[0])
  {
    var line := IFDEF + " " + rest;
    assert IFDEF + " " <= line;
    SplitDirective(IFDEF, rest);
  }

  lemma ClassifyIfndef(rest: string)
    ensures Classify(IFNDEF + " " + rest) == if Split(rest) == [] then Malformed else Ifndef(Split(rest)[0])
  {
    var line := IFNDEF + " " + rest;
    assert IFNDEF + " " <= line;
    OtherDirective(line);
    SplitDirective(IFNDEF, rest);
  }

  lemma OtherDirective(line: string)
    requires IFNDEF + " " <= line
    ensures !(IFDEF + " " <= line)
  {
    NoPrefix(IFDEF + " ", line, 3);
  }

  /** Texts that differ at a place: the one is no prefix of the other. */
  lemma NoPrefix(p: string, s: string, i: nat)
    requires i < |p| && i < |s| && p[i] != s[i]
    ensures !(p <= s)
  {
  }

  /** Every line that starts with one of the other two directives. */
  lemma ClassifyOthers(rest: string)
    ensures Classify("`else" + rest) == Else && Classify("`endif" + rest) == Endif
  {
    NoPrefix(IFDEF + " ", "`else" + rest, 1);
    NoPrefix(IFNDEF + " ", "`else" + rest, 1);
    NoPrefix(IFDEF + " ", "`endif" + rest, 1);
    NoPrefix(IFNDEF + " ", "`endif" + rest, 1);
    NoPrefix("`else", "`endif" + rest, 2);
  }

  /** And no other line is a directive. */
  lemma ClassifyText(line: string)
    ensures Classify(line).Text? <==>
              !(IFDEF + " " <= line) && !(IFNDEF + " " <= line) && !("`else" <= line) && !("`endif" <= line)
    ensures Classify(line).Text? ==> Classify(line).text == line
  {
  }

  /** Reading a line as it is usually spelled gives the line back. */
  lemma ClassifySpelled(line: Line)
    requires Spellable(line)
    ensures Classify(Spelled(line)) == line
  {
    match line
    case Ifdef(flag) =>
      SplitFlag(flag);
      ClassifyIfdef(flag + "\n");
      assert Spelled(line) == IFDEF + " " + (flag + "\n");
    case Ifndef(flag) =>
      SplitFlag(flag);
      ClassifyIfndef(flag + "\n");
      assert Spelled(line) == IFNDEF + " " + (flag + "\n");
    case Text(text) =>
    case Else =>
      ClassifyOthers("\n");
    case Endif =>
      ClassifyOthers("\n");
  }

  lemma SplitFlag(flag: string)
    requires flag != "" && WordLength(flag) == |flag|
    ensures Split(flag + "\n") == [flag]
  {
    SplitAtBlank(flag, '\n', "");
    assert flag + ['\n'] + "" == flag + "\n";
    SplitOneWord(flag);
    assert [flag] + Split("") == [flag];
  }

  // ----------------------------------------------------------------------------------
  // Replacements
  // ----------------------------------------------------------------------------------

  type Pattern = s: string | s != "" witness "x"

  /** The pieces of a text between the occurrences of a pattern, taken from the left. */
  function Pieces(s: string, a: Pattern): (r: seq<string>)
    ensures r != []
    decreases |s|
  {
    if s == "" then [""]
    else if a <= s then [""] + Pieces(s[|a|..], a)
    else
      var rest := Pieces(s[1..], a);
      [[s[0]] + rest[0]] + rest[1..]
  }

  function Join(pieces: seq<string>, b: string): string
    requires pieces != []
  {
    if |pieces| == 1 then pieces[0] else pieces[0] + b + Join(pieces[1..], b)
  }

  /** `str.replace(a, b)` */
  function Replace(s: string, a: Pattern, b: string): string {
    Join(Pieces(s, a), b)
  }

  lemma JoinPrefix(ch: char, pieces: seq<string>, b: string)
    requires pieces != []
    ensures Join([[ch] + pieces[0]] + pieces[1..], b) == [ch] + Join(pieces, b)
  {
    var longer := [[ch] + pieces[0]] + pieces[1..];
    if |pieces| > 1 {
      assert longer[1..] == pieces[1..];
    }
  }

  /** The pieces with the pattern between them are the text: nothing is lost when nothing is changed. */
  lemma {:induction false} ReplaceBySelf(s: string, a: Pattern)
    ensures Replace(s, a, a) == s
    decreases |s|
  {
    if s == "" {
    } else if a <= s {
      ReplaceBySelf(s[|a|..], a);
      var rest := Pieces(s[|a|..], a);
      assert ([""] + rest)[1..] == rest;
      assert "" + a + s[|a|..] == s;
    } else {
      ReplaceBySelf(s[1..], a);
      JoinPrefix(s[0], Pieces(s[1..], a), a);
    }
  }

  /** A pattern occurs at position `i`. */
  predicate OccursAt(s: string, a: string, i: nat) {
    i <= |s| && a <= s[i..]
  }

  /** Text without the pattern is left as it is. */
  lemma {:induction false} ReplaceNothing(s: string, a: Pattern, b: string)
    requires forall i: nat :: !OccursAt(s, a, i)
    ensures Replace(s, a, b) == s && |Pieces(s, a)| == 1
    decreases |s|
  {
    if s != "" {
      assert s[0..] == s && !OccursAt(s, a, 0);
      forall i: nat ensures !OccursAt(s[1..], a, i) {
        assert i <= |s[1..]| ==> s[1..][i..] == s[i + 1..];
        assert !OccursAt(s, a, i + 1);
      }
      ReplaceNothing(s[1..], a, b);
      JoinPrefix(s[0], Pieces(s[1..], a), b);
    }
  }

  /** The first occurrence is replaced, and then the text behind it is treated the same way. */
  lemma {:induction false} ReplaceFirst(before: string, a: Pattern, behind: string, b: string)
    requires forall i: nat | i < |before| :: !OccursAt(before + a + behind, a, i)
    ensures Replace(before + a + behind, a, b) == before + b + Replace(behind, a, b)
    decreases |before|
  {
    var s := before + a + behind;
    if before == "" {
      assert s == a + behind && s[|a|..] == behind;
      var rest := Pieces(behind, a);
      assert ([""] + rest)[1..] == rest;
      assert "" + b + Join(rest, b) == before + b + Join(rest, b);
    } else {
      var tail := before[1..] + a + behind;
      assert s[1..] == tail && s[0..] == s && !OccursAt(s, a, 0);
      forall i: nat | i < |before[1..]| ensures !OccursAt(tail, a, i) {
        assert tail[i..] == s[i + 1..];
        assert !OccursAt(s, a, i + 1);
      }
      ReplaceFirst(before[1..], a, behind, b);
      JoinPrefix(s[0], Pieces(tail, a), b);
      assert [s[0]] + (before[1..] + b + Replace(behind, a, b)) == before + b + Replace(behind, a, b);
    }
  }

  /** All replacements, in the order of the table. */
  function ReplaceAll(text: string, table: seq<(Pattern, string)>): string {
    if table == [] then text
    else
      var last := table[|table| - 1];
      Replace(ReplaceAll(text, table[..|table| - 1]), last.0, last.1)
  }

  /** A table of one entry is one replacement, and longer tables work through their parts one after the other. */
  lemma ReplaceOnce(text: string, entry: (Pattern, string))
    ensures ReplaceAll(text, [entry]) == Replace(text, entry.0, entry.1)
  {
    assert [entry][..0] == [];
  }

  lemma {:induction false} ReplaceInTurn(text: string, first: seq<(Pattern, string)>, second: seq<(Pattern, string)>)
    ensures ReplaceAll(text, first + second) == ReplaceAll(ReplaceAll(text, first), second)
    decreases |second|
  {
    if second == [] {
      assert first + second == first;
    } else {
      var all := first + second;
      assert all[..|all| - 1] == first + second[..|second| - 1];
      ReplaceInTurn(text, first, second[..|second| - 1]);
    }
  }
}
