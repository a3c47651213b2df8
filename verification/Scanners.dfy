/** The format checker's two scanners over C source: blanking comments, and splitting an
    argument list at its top-level commas. Each skips whole tokens at a time; here each is
    proved against an automaton that reads one character at a time. */
module Scanners {

  type Text = string

  // Where a scanner stands between two characters.
  datatype Mode =
    | Code
    | Escaped                        // after a backslash in code
    | Quoted(quote: char)            // inside a string or character literal
    | QuotedEscaped(quote: char)     // after a backslash in a literal
    | Line                           // inside a line comment
    | BlockOpen                      // before the '*' that opens a block comment
    | Block
    | BlockClose                     // before the '/' that closes it

  // ---- the automaton that recognises comments ---------------------------------------

  predicate IsQuote(c: char) {
    c == '"' || c == '\''
  }

  // The character after the first, or a blank at the end of the text.
  function Look(t: Text): char {
    if |t| > 1 then t[1] else ' '
  }

  function Step(m: Mode, c: char, look: char): Mode {
    match m
    case Code =>
      if c == '\\' then Escaped
      else if IsQuote(c) then Quoted(c)
      else if c == '/' && look == '/' then Line
      else if c == '/' && look == '*' then BlockOpen
      else Code
    case Escaped => Code
    case Quoted(q) => if c == q then Code else if c == '\\' then QuotedEscaped(q) else m
    case QuotedEscaped(q) => Quoted(q)
    case Line => if c == '\n' then Code else Line
    case BlockOpen => Block
    case Block => if c == '*' && look == '/' then BlockClose else Block
    case BlockClose => Code
  }

  predicate InComment(m: Mode, c: char, look: char) {
    match m
    case Code => c == '/' && (look == '/' || look == '*')
    case Line => c != '\n'
    case BlockOpen => true
    case Block => true
    case BlockClose => true
    case _ => false
  }

  function Blank(c: char): char {
    if c == '\n' then c else ' '
  }

  function Emit(m: Mode, c: char, look: char): char {
    if InComment(m, c, look) then Blank(c) else c
  }

  /** The text with its comments blanked, read from mode m. */
  function Blanked(t: Text, m: Mode): (r: Text)
    ensures |r| == |t|
  {
    if t == [] then [] else [Emit(m, t[0], Look(t))] + Blanked(t[1..], Step(m, t[0], Look(t)))
  }

  // ---- blanking comments, token by token ------------------------------------------------

  // str.find for a newline, or the end of the text.
  function LineEnd(t: Text, i: nat): (j: nat)
    requires i <= |t|
    ensures i <= j <= |t|
    decreases |t| - i
  {
    if i == |t| || t[i] == '\n' then i else LineEnd(t, i + 1)
  }

  // Just after the first "*/" at or after i, or the end of the text.
  function BlockEnd(t: Text, i: nat): (j: nat)
    requires i <= |t|
    ensures i <= j <= |t|
    decreases |t| - i
  {
    if i + 1 >= |t| then |t| else if t[i] == '*' && t[i + 1] == '/' then i + 2 else BlockEnd(t, i + 1)
  }

  function BlankAll(t: Text): (r: Text)
    ensures |r| == |t|
  {
    seq(|t|, i requires 0 <= i < |t| => Blank(t[i]))
  }

  // Blanked, from position i on.
  function From(t: Text, i: nat, m: Mode): Text
    requires i <= |t|
  {
    Blanked(t[i..], m)
  }

  lemma FromStep(t: Text, i: nat, m: Mode)
    requires i < |t|
    ensures var look := if i + 1 < |t| then t[i + 1] else ' ';
            From(t, i, m) == [Emit(m, t[i], look)] + From(t, i + 1, Step(m, t[i], look))
  {
    assert t[i..][1..] == t[i + 1..];
  }

  lemma {:induction false} LineBlanked(t: Text, i: nat)
    requires i <= |t|
    ensures From(t, i, Line) == BlankAll(t[i..LineEnd(t, i)]) + From(t, LineEnd(t, i), Code)
    decreases |t| - i
  {
    var j := LineEnd(t, i);
    if i < j {
      FromStep(t, i, Line);
      LineBlanked(t, i + 1);
      assert BlankAll(t[i..j]) == [' '] + BlankAll(t[i + 1..j]);
    } else if i < |t| {
      FromStep(t, i, Line);
      FromStep(t, i, Code);
    }
  }

  lemma {:induction false} BlockBlanked(t: Text, i: nat)
    requires i <= |t|
    ensures From(t, i, Block) == BlankAll(t[i..BlockEnd(t, i)]) + From(t, BlockEnd(t, i), Code)
    decreases |t| - i
  {
    var j := BlockEnd(t, i);
    if i < |t| {
      FromStep(t, i, Block);
      if i + 1 < |t| && t[i] == '*' && t[i + 1] == '/' {
        FromStep(t, i + 1, BlockClose);
        assert BlankAll(t[i..j]) == [' ', ' '];
      } else {
        BlockBlanked(t, i + 1);
        assert BlankAll(t[i..j]) == [Blank(t[i])] + BlankAll(t[i + 1..j]);
      }
    }
  }

  lemma EscapeToken(t: Text, i: nat)
    requires i < |t| && t[i] == '\\'
    ensures From(t, i, Code) == t[i..Clip(t, i + 2)] + From(t, Clip(t, i + 2), Code)
  {
    FromStep(t, i, Code);
    if i + 1 < |t| {
      FromStep(t, i + 1, Escaped);
    }
  }

  lemma LineToken(t: Text, i: nat)
    requires i + 1 < |t| && t[i] == '/' && t[i + 1] == '/'
    ensures i < LineEnd(t, i) && BlankAll(t[i..LineEnd(t, i)]) == seq(LineEnd(t, i) - i, _ => ' ')
    ensures From(t, i, Code) == BlankAll(t[i..LineEnd(t, i)]) + From(t, LineEnd(t, i), Code)
  {
    var j := LineEnd(t, i);
    FromStep(t, i, Code);
    LineBlanked(t, i + 1);
    LineHasNoNewline(t, i);
    assert BlankAll(t[i..j]) == [' '] + BlankAll(t[i + 1..j]);
    assert forall k :: i <= k < j ==> t[k] == t[i..j][k - i];
  }

  lemma BlockToken(t: Text, i: nat)
    requires i + 1 < |t| && t[i] == '/' && t[i + 1] == '*'
    ensures From(t, i, Code) == BlankAll(t[i..BlockEnd(t, i + 2)]) + From(t, BlockEnd(t, i + 2), Code)
  {
    var j := BlockEnd(t, i + 2);
    FromStep(t, i, Code);
    FromStep(t, i + 1, BlockOpen);
    BlockBlanked(t, i + 2);
    assert BlankAll(t[i..j]) == [' ', ' '] + BlankAll(t[i + 2..j]);
  }

  lemma Regroup(a: Text, b: Text, c: Text)
    ensures a + (b + c) == (a + b) + c
  {
  }

  /** The comment blanker. Its result is what the one-character automaton gives. */
  method StripComments(text: Text) returns (out: Text)
    ensures out == Blanked(text, Code)
  {
    var i := 0;
    out := [];
    assert text[0..] == text;
    while i < |text|
      invariant i <= |text|
      invariant out + From(text, i, Code) == Blanked(text, Code)
      decreases |text| - i
    {
      var c := text[i];
      var j, piece;
      if c == '\\' {
        EscapeToken(text, i);
        j := Clip(text, i + 2);
        piece := text[i..j];
      } else if IsQuote(c) {
        j := SkipLiteral(text, i);
        piece := text[i..j];
      } else if c == '/' && i + 1 < |text| && text[i + 1] == '/' {
        LineToken(text, i);
        j := LineEnd(text, i);
        piece := seq(j - i, _ => ' ');
      } else if c == '/' && i + 1 < |text| && text[i + 1] == '*' {
        BlockToken(text, i);
        j := BlockEnd(text, i + 2);
        piece := BlankAll(text[i..j]);
      } else {
        FromStep(text, i, Code);
        j := i + 1;
        piece := [c];
      }
      Regroup(out, piece, From(text, j, Code));
      out := out + piece;
      i := j;
    }
  }

  lemma {:induction false} LineHasNoNewline(t: Text, i: nat)
    requires i <= |t|
    ensures '\n' !in t[i..LineEnd(t, i)]
    decreases |t| - i
  {
    if i < LineEnd(t, i) {
      LineHasNoNewline(t, i + 1);
      assert t[i..LineEnd(t, i)] == [t[i]] + t[i + 1..LineEnd(t, i)];
    }
  }

  lemma SliceInTwo(t: Text, i: nat, j: nat, k: nat)
    requires i <= j <= k <= |t|
    ensures t[i..j] + t[j..k] == t[i..k]
  {
  }

  lemma LiteralToken(t: Text, j: nat, quote: char)
    requires j < |t| && t[j] != quote
    ensures var next := Clip(t, j + if t[j] == '\\' then 2 else 1);
            From(t, j, Quoted(quote)) == t[j..next] + From(t, next, Quoted(quote))
  {
    FromStep(t, j, Quoted(quote));
    if t[j] == '\\' && j + 1 < |t| {
      FromStep(t, j + 1, QuotedEscaped(quote));
      assert t[j..j + 2] == [t[j]] + [t[j + 1]];
    }
  }

  // The loop over a literal that opens at i: just past its closing quote, or the end.
  method SkipLiteral(text: Text, i: nat) returns (end: nat)
    requires i < |text| && IsQuote(text[i])
    ensures i < end <= |text|
    ensures From(text, i, Code) == text[i..end] + From(text, end, Code)
  {
    var quote := text[i];
    var j := i + 1;
    FromStep(text, i, Code);
    while j < |text| && text[j] != quote
      invariant i < j <= |text| + 1
      invariant From(text, i, Code) == text[i..Clip(text, j)] + From(text, Clip(text, j), Quoted(quote))
      decreases |text| - j
    {
      LiteralToken(text, j, quote);
      var next := j + if text[j] == '\\' then 2 else 1;
      Regroup(text[i..j], text[j..Clip(text, next)], From(text, Clip(text, next), Quoted(quote)));
      SliceInTwo(text, i, j, Clip(text, next));
      j := next;
    }
    end := Clip(text, j + 1);
    if j < |text| {
      FromStep(text, j, Quoted(quote));
      SliceInTwo(text, i, j, end);
      Regroup(text[i..j], text[j..end], From(text, end, Code));
    }
  }

  function Clip(t: Text, j: nat): nat {
    if j < |t| then j else |t|
  }

  // ---- what the blanker does to each kind of token ---------------------------------------------

  // What may stand between the quotes of a literal: a backslash always takes the next character with it.
  predicate LiteralBody(body: Text, quote: char)
    decreases |body|
  {
    if body == [] then true
    else if body[0] == '\\' then |body| > 1 && LiteralBody(body[2..], quote)
    else body[0] != quote && LiteralBody(body[1..], quote)
  }

  /** Text without the quote and without backslashes may stand there. */
  lemma {:induction false} PlainBody(plain: Text, quote: char)
    requires quote !in plain && '\\' !in plain
    ensures LiteralBody(plain, quote)
  {
    if plain != [] {
      assert plain[0] in plain;
      PlainBody(plain[1..], quote);
    }
  }

  /** And so may any escaped character after it, the quote itself included. */
  lemma {:induction false} EscapedBody(plain: Text, c: char, rest: Text, quote: char)
    requires quote !in plain && '\\' !in plain && LiteralBody(rest, quote)
    ensures LiteralBody(plain + (['\\'] + ([c] + rest)), quote)
    decreases |plain|
  {
    var tail := ['\\'] + ([c] + rest);
    if plain == [] {
      assert plain + tail == tail && tail[2..] == rest;
    } else {
      assert plain[0] in plain && (plain + tail)[1..] == plain[1..] + tail;
      EscapedBody(plain[1..], c, rest, quote);
    }
  }

  lemma BlankedCons(c: char, rest: Text, m: Mode)
    ensures var look := if rest == [] then ' ' else rest[0];
            Blanked([c] + rest, m) == [Emit(m, c, look)] + Blanked(rest, Step(m, c, look))
  {
    assert ([c] + rest)[1..] == rest;
  }

  lemma EscapeQuoted(c: char, rest: Text, quote: char)
    requires quote != '\\'
    ensures Blanked(['\\'] + ([c] + rest), Quoted(quote)) == ['\\'] + ([c] + Blanked(rest, Quoted(quote)))
  {
    BlankedCons('\\', [c] + rest, Quoted(quote));
    BlankedCons(c, rest, QuotedEscaped(quote));
  }

  lemma {:induction false} QuotedKept(body: Text, quote: char, rest: Text)
    requires LiteralBody(body, quote) && quote != '\\'
    ensures Blanked(body + rest, Quoted(quote)) == body + Blanked(rest, Quoted(quote))
    decreases |body|
  {
    if body == [] {
      assert body + rest == rest;
    } else if body[0] == '\\' {
      var back, c, tail := body[0], body[1], body[2..];
      QuotedKept(tail, quote, rest);
      EscapeQuoted(c, tail + rest, quote);
      assert body == [back] + ([c] + tail);
      assert body + rest == [back] + ([c] + (tail + rest));
      assert body + Blanked(rest, Quoted(quote)) == [back] + ([c] + (tail + Blanked(rest, Quoted(quote))));
    } else {
      assert body + rest == [body[0]] + (body[1..] + rest);
      BlankedCons(body[0], body[1..] + rest, Quoted(quote));
      QuotedKept(body[1..], quote, rest);
      assert body == [body[0]] + body[1..];
    }
  }

  /** A literal in single or double quotes is kept as it is, whatever is in it, and the scan goes on
      after its closing quote. */
  lemma LiteralKept(quote: char, body: Text, rest: Text)
    requires quote == '"' || quote == '\''
    requires LiteralBody(body, quote)
    ensures Blanked([quote] + (body + ([quote] + rest)), Code) == [quote] + (body + ([quote] + Blanked(rest, Code)))
    ensures Blanked([quote] + body, Code) == [quote] + body
  {
    BlankedCons(quote, body + ([quote] + rest), Code);
    QuotedKept(body, quote, [quote] + rest);
    BlankedCons(quote, rest, Quoted(quote));
    BlankedCons(quote, body, Code);
    QuotedKept(body, quote, []);
    assert body + [] == body;
  }

  /** So is an escaped character outside literals: it opens neither a literal nor a comment. */
  lemma EscapeKept(c: char, rest: Text)
    ensures Blanked(['\\'] + ([c] + rest), Code) == ['\\'] + ([c] + Blanked(rest, Code))
    ensures Blanked(['\\'], Code) == ['\\']
  {
    BlankedCons('\\', [c] + rest, Code);
    BlankedCons(c, rest, Escaped);
    BlankedCons('\\', [], Code);
    assert ['\\'] + [] == ['\\'];
  }

  // A comment's text, blanked.
  function Spaced(t: Text): (r: Text)
    ensures |r| == |t| && forall i :: 0 <= i < |t| ==> r[i] == if t[i] == '\n' then '\n' else ' '
  {
    seq(|t|, i requires 0 <= i < |t| => if t[i] == '\n' then '\n' else ' ')
  }

  lemma SpacedCons(c: char, tail: Text, rest: Text)
    ensures Spaced([c] + tail) + rest == [if c == '\n' then '\n' else ' '] + (Spaced(tail) + rest)
  {
    assert Spaced([c] + tail) == [if c == '\n' then '\n' else ' '] + Spaced(tail);
  }

  lemma LineOver(rest: Text)
    requires rest == [] || rest[0] == '\n'
    ensures Blanked(rest, Line) == Blanked(rest, Code)
  {
    if rest != [] {
      var tail := rest[1..];
      assert rest == ['\n'] + tail;
      BlankedCons('\n', tail, Line);
      BlankedCons('\n', tail, Code);
    }
  }

  lemma {:induction false} LineSpaced(body: Text, rest: Text)
    requires '\n' !in body && (rest == [] || rest[0] == '\n')
    ensures Blanked(body + rest, Line) == Spaced(body) + Blanked(rest, Code)
  {
    if body == [] {
      assert body + rest == rest && Spaced(body) + Blanked(rest, Code) == Blanked(rest, Code);
      LineOver(rest);
    } else {
      var c, tail := body[0], body[1..];
      LineSpaced(tail, rest);
      assert body + rest == [c] + (tail + rest) && c in body;
      BlankedCons(c, tail + rest, Line);
      SpacedCons(c, tail, Blanked(rest, Code));
      assert [c] + tail == body;
    }
  }

  /** A line comment becomes blanks, up to the newline or the end of the text. */
  lemma LineCommentSpaced(body: Text, rest: Text)
    requires '\n' !in body && (rest == [] || rest[0] == '\n')
    ensures Blanked("//" + (body + rest), Code) == "  " + (Spaced(body) + Blanked(rest, Code))
  {
    assert "//" + (body + rest) == ['/'] + (['/'] + (body + rest));
    BlankedCons('/', ['/'] + (body + rest), Code);
    BlankedCons('/', body + rest, Line);
    LineSpaced(body, rest);
  }

  // No "*/" in the text.
  predicate NeverCloses(t: Text) {
    forall i :: 0 <= i < |t| - 1 && t[i] == '*' ==> t[i + 1] != '/'
  }

  lemma {:induction false} BlockSpaced(body: Text, rest: Text)
    requires NeverCloses(body) && (rest == [] || rest[0] == '*')
    ensures Blanked(body + rest, Block) == Spaced(body) + Blanked(rest, Block)
  {
    if body == [] {
      assert body + rest == rest && Spaced(body) == [];
    } else {
      var c, tail := body[0], body[1..];
      BlockSpaced(tail, rest);
      assert body + rest == [c] + (tail + rest) && [c] + tail == body;
      assert tail + rest != [] && c == '*' ==> (tail + rest)[0] != '/';
      BlankedCons(c, tail + rest, Block);
      SpacedCons(c, tail, Blanked(rest, Block));
    }
  }

  /** A block comment becomes blanks and its own newlines, up to the first "*" and "/" after it opens,
      or to the end of the text. */
  lemma BlockCommentSpaced(body: Text, rest: Text)
    requires NeverCloses(body)
    ensures Blanked("/*" + (body + ("*/" + rest)), Code) == "  " + (Spaced(body) + ("  " + Blanked(rest, Code)))
    ensures Blanked("/*" + body, Code) == "  " + Spaced(body)
  {
    BlockOpens(body + ("*/" + rest));
    BlockSpaced(body, "*/" + rest);
    assert "*/" + rest == ['*'] + (['/'] + rest);
    BlankedCons('*', ['/'] + rest, Block);
    BlankedCons('/', rest, BlockClose);
    assert Blanked("*/" + rest, Block) == "  " + Blanked(rest, Code);
    BlockOpens(body);
    BlockSpaced(body, []);
    assert body + [] == body;
  }

  lemma BlockOpens(tail: Text)
    ensures Blanked("/*" + tail, Code) == "  " + Blanked(tail, Block)
  {
    assert "/*" + tail == ['/'] + (['*'] + tail);
    BlankedCons('/', ['*'] + tail, Code);
    BlankedCons('*', tail, BlockOpen);
  }

  /** Any other character is kept: a slash too, unless a slash or a star follows. */
  lemma OtherKept(c: char, rest: Text)
    requires c != '\\' && c != '"' && c != '\''
    requires c == '/' && rest != [] ==> rest[0] != '/' && rest[0] != '*'
    ensures Blanked([c] + rest, Code) == [c] + Blanked(rest, Code)
  {
    BlankedCons(c, rest, Code);
  }

  // ---- what blanking preserves -----------------------------------------------------------

  // The mode in which character k is read.
  function ModeAt(t: Text, m: Mode, k: nat): Mode
    requires k <= |t|
    decreases k
  {
    if k == 0 then m else ModeAt(t[1..], Step(m, t[0], Look(t)), k - 1)
  }

  // Character k belongs to a comment.
  predicate CommentAt(t: Text, k: nat)
    requires k < |t|
  {
    InComment(ModeAt(t, Code, k), t[k], Look(t[k..]))
  }

  lemma {:induction false} BlankedAt(t: Text, m: Mode, k: nat)
    requires k < |t|
    ensures Blanked(t, m)[k] == Emit(ModeAt(t, m, k), t[k], Look(t[k..]))
    decreases k
  {
    if k > 0 {
      BlankedAt(t[1..], Step(m, t[0], Look(t)), k - 1);
      assert t[1..][k - 1..] == t[k..];
    } else {
      assert t[0..] == t;
    }
  }

  /** Blanking keeps the length and every newline where it was, changes nothing outside a
      comment (so no literal and no escape), and leaves only blanks and newlines inside. */
  lemma StripPreserves(text: Text)
    ensures var r := Blanked(text, Code);
            && |r| == |text|
            && forall k :: 0 <= k < |text| ==>
                 && (r[k] == '\n' <==> text[k] == '\n')
                 && (!CommentAt(text, k) ==> r[k] == text[k])
                 && (CommentAt(text, k) ==> r[k] == Blank(text[k]))
  {
    forall k | 0 <= k < |text|
      ensures Blanked(text, Code)[k] == Emit(ModeAt(text, Code, k), text[k], Look(text[k..]))
    {
      BlankedAt(text, Code, k);
    }
  }

  // How the second run stands while the first is in mode m.
  function Shadow(m: Mode): Mode {
    if m.Line? || m.BlockOpen? || m.Block? || m.BlockClose? then Code else m
  }

  lemma {:induction false} BlankedTwice(t: Text, m: Mode)
    ensures Blanked(Blanked(t, m), Shadow(m)) == Blanked(t, m)
  {
    if t != [] {
      var next := Step(m, t[0], Look(t));
      var r, rest := Blanked(t, m), Blanked(t[1..], next);
      BlankedTwice(t[1..], next);
      assert r[1..] == rest;
      if |t| > 1 {
        assert Look(r) == rest[0];
      }
      assert Step(Shadow(m), r[0], Look(r)) == Shadow(next);
    }
  }

  /** Blanking is idempotent, on every text: no blanked comment brings a new one about. */
  lemma StripIdempotent(text: Text)
    ensures Blanked(Blanked(text, Code), Code) == Blanked(text, Code)
  {
    BlankedTwice(text, Code);
  }

  // ---- the automaton that finds top-level commas --------------------------------------------

  // Splitting knows no comments: only escapes, literals and bracket depth.
  function Lex(m: Mode, c: char): Mode {
    match m
    case Code => if c == '\\' then Escaped else if IsQuote(c) then Quoted(c) else Code
    case Quoted(q) => if c == q then Code else if c == '\\' then QuotedEscaped(q) else m
    case QuotedEscaped(q) => Quoted(q)
    case _ => Code
  }

  function Deepen(m: Mode, depth: int, c: char): int {
    if m != Code then depth
    else if c == '(' || c == '[' || c == '{' then depth + 1
    else if c == ')' || c == ']' || c == '}' then depth - 1
    else depth
  }

  predicate TopComma(m: Mode, depth: int, c: char) {
    m == Code && c == ',' && depth == 0
  }

  function TopCommas(t: Text, m: Mode, depth: int): nat {
    if t == [] then 0
    else (if TopComma(m, depth, t[0]) then 1 else 0) + TopCommas(t[1..], Lex(m, t[0]), Deepen(m, depth, t[0]))
  }

  // The mode and depth after the text.
  function After(t: Text, m: Mode, depth: int): (Mode, int) {
    if t == [] then (m, depth) else After(t[1..], Lex(m, t[0]), Deepen(m, depth, t[0]))
  }

  /** The pieces between top-level commas, with piece holding what was read of the first. */
  function Pieces(t: Text, m: Mode, depth: int, piece: Text): (r: seq<Text>)
    ensures |r| > 0
    decreases |t|
  {
    if t == [] then [piece]
    else if TopComma(m, depth, t[0]) then [piece] + Pieces(t[1..], Code, 0, [])
    else Pieces(t[1..], Lex(m, t[0]), Deepen(m, depth, t[0]), piece + [t[0]])
  }

  function Split(t: Text): seq<Text> {
    Pieces(t, Code, 0, [])
  }

  // ---- splitting, token by token ---------------------------------------------------------------

  // The pieces still to come when the scan stands at i and the current piece began at start.
  function Rest(t: Text, start: nat, i: nat, m: Mode, depth: int): seq<Text>
    requires start <= i <= |t|
  {
    Pieces(t[i..], m, depth, t[start..i])
  }

  lemma RestStep(t: Text, start: nat, i: nat, m: Mode, depth: int)
    requires start <= i < |t|
    ensures Rest(t, start, i, m, depth) ==
            if TopComma(m, depth, t[i]) then [t[start..i]] + Rest(t, i + 1, i + 1, Code, 0)
            else Rest(t, start, i + 1, Lex(m, t[i]), Deepen(m, depth, t[i]))
  {
    assert t[i..][1..] == t[i + 1..];
    assert t[start..i] + [t[i]] == t[start..i + 1];
    assert t[i + 1..i + 1] == [];
  }

  /** The splitter. Its result is what the one-character automaton gives. */
  method SplitTopLevel(text: Text) returns (out: seq<Text>)
    ensures out == Split(text)
  {
    out := [];
    var depth, start, i := 0, 0, 0;
    assert text[0..] == text && text[0..0] == [];
    assert out + Rest(text, 0, 0, Code, 0) == Split(text);
    while i < |text|
      invariant start <= i <= |text|
      invariant out + Rest(text, start, i, Code, depth) == Split(text)
      decreases |text| - i
    {
      var c := text[i];
      RestStep(text, start, i, Code, depth);
      if c == '\\' {
        if i + 1 < |text| {
          RestStep(text, start, i + 1, Escaped, depth);
        }
        i := Clip(text, i + 2);
      } else if IsQuote(c) {
        i := SkipQuoted(text, start, i, depth);
      } else {
        if c == '(' || c == '[' || c == '{' {
          depth := depth + 1;
        } else if c == ')' || c == ']' || c == '}' {
          depth := depth - 1;
        } else if c == ',' && depth == 0 {
          ghost var done := out;
          out := out + [text[start..i]];
          start := i + 1;
          assert done + ([text[start - 1..i]] + []) == done + [text[start - 1..i]];
        }
        i := i + 1;
      }
    }
    assert text[|text|..] == [] && text[start..|text|] == text[start..];
    out := out + [text[start..]];
  }

  // The loop over a literal that opens at i.
  method SkipQuoted(text: Text, start: nat, i: nat, depth: int) returns (end: nat)
    requires start <= i < |text| && IsQuote(text[i])
    ensures i < end <= |text|
    ensures Rest(text, start, i, Code, depth) == Rest(text, start, end, Code, depth)
  {
    var quote := text[i];
    var j := i + 1;
    RestStep(text, start, i, Code, depth);
    while j < |text| && text[j] != quote
      invariant i < j <= |text| + 1
      invariant Rest(text, start, i, Code, depth) == Rest(text, start, Clip(text, j), Quoted(quote), depth)
      decreases |text| - j
    {
      RestStep(text, start, j, Quoted(quote), depth);
      if text[j] == '\\' {
        if j + 1 < |text| {
          RestStep(text, start, j + 1, QuotedEscaped(quote), depth);
        }
      }
      j := j + if text[j] == '\\' then 2 else 1;
    }
    if j < |text| {
      RestStep(text, start, j, Quoted(quote), depth);
    }
    end := Clip(text, j + 1);
  }

  // ---- what splitting preserves --------------------------------------------------------------------

  function Join(pieces: seq<Text>): Text
    requires pieces != []
  {
    if |pieces| == 1 then pieces[0] else pieces[0] + [','] + Join(pieces[1..])
  }

  lemma JoinCons(piece: Text, tail: seq<Text>)
    requires tail != []
    ensures Join([piece] + tail) == piece + ([','] + Join(tail))
  {
    assert ([piece] + tail)[1..] == tail;
  }

  lemma {:induction false} JoinPieces(t: Text, m: Mode, depth: int, piece: Text)
    ensures Join(Pieces(t, m, depth, piece)) == piece + t
    decreases |t|
  {
    if t == [] {
    } else if TopComma(m, depth, t[0]) {
      JoinCons(piece, Pieces(t[1..], Code, 0, []));
      JoinPieces(t[1..], Code, 0, []);
      assert t == [','] + ([] + t[1..]);
    } else {
      JoinPieces(t[1..], Lex(m, t[0]), Deepen(m, depth, t[0]), piece + [t[0]]);
      assert piece + [t[0]] + t[1..] == piece + t;
    }
  }

  lemma {:induction false} CountPieces(t: Text, m: Mode, depth: int, piece: Text)
    ensures |Pieces(t, m, depth, piece)| == 1 + TopCommas(t, m, depth)
    decreases |t|
  {
    if t == [] {
    } else if TopComma(m, depth, t[0]) {
      CountPieces(t[1..], Code, 0, []);
    } else {
      CountPieces(t[1..], Lex(m, t[0]), Deepen(m, depth, t[0]), piece + [t[0]]);
    }
  }

  lemma {:induction false} AfterAppend(t: Text, c: char, m: Mode, depth: int)
    ensures var (m', d') := After(t, m, depth);
            && After(t + [c], m, depth) == (Lex(m', c), Deepen(m', d', c))
            && TopCommas(t + [c], m, depth) == TopCommas(t, m, depth) + if TopComma(m', d', c) then 1 else 0
  {
    if t != [] {
      AfterAppend(t[1..], c, Lex(m, t[0]), Deepen(m, depth, t[0]));
      assert (t + [c])[1..] == t[1..] + [c];
    } else {
      assert t + [c] == [c] && [c][1..] == [];
    }
  }

  // A text with no top-level comma of its own.
  predicate Atomic(p: Text) {
    TopCommas(p, Code, 0) == 0
  }

  // Pieces that a split could have produced: no top-level comma inside any, and every
  // piece but the last ends outside literals and brackets.
  ghost predicate Separable(pieces: seq<Text>) {
    && pieces != []
    && (forall i :: 0 <= i < |pieces| ==> Atomic(pieces[i]))
    && (forall i :: 0 <= i < |pieces| - 1 ==> After(pieces[i], Code, 0) == (Code, 0))
  }

  lemma SeparableCons(p: Text, tail: seq<Text>)
    requires Atomic(p) && After(p, Code, 0) == (Code, 0) && Separable(tail)
    ensures Separable([p] + tail)
  {
    var r := [p] + tail;
    assert forall i :: 0 < i < |r| ==> r[i] == tail[i - 1];
  }

  lemma {:induction false} PiecesAtomic(t: Text, m: Mode, depth: int, piece: Text)
    requires Atomic(piece) && After(piece, Code, 0) == (m, depth)
    ensures Separable(Pieces(t, m, depth, piece))
    decreases |t|
  {
    if t == [] {
    } else if TopComma(m, depth, t[0]) {
      PiecesAtomic(t[1..], Code, 0, []);
      SeparableCons(piece, Pieces(t[1..], Code, 0, []));
    } else {
      AfterAppend(piece, t[0], Code, 0);
      assert Pieces(t, m, depth, piece) == Pieces(t[1..], Lex(m, t[0]), Deepen(m, depth, t[0]), piece + [t[0]]);
      PiecesAtomic(t[1..], Lex(m, t[0]), Deepen(m, depth, t[0]), piece + [t[0]]);
    }
  }

  /** Splitting loses nothing: joining the pieces with commas gives the text back, there is
      one piece more than there are top-level commas, and no piece can be split further. */
  lemma SplitLosesNothing(text: Text)
    ensures Separable(Split(text)) && Join(Split(text)) == text
    ensures |Split(text)| == 1 + TopCommas(text, Code, 0)
  {
    JoinPieces(text, Code, 0, []);
    CountPieces(text, Code, 0, []);
    PiecesAtomic(text, Code, 0, []);
  }

  lemma {:induction false} PiecesOfAtomic(p: Text, m: Mode, depth: int, piece: Text, rest: Text)
    requires TopCommas(p, m, depth) == 0
    ensures var (m', d') := After(p, m, depth); Pieces(p + rest, m, depth, piece) == Pieces(rest, m', d', piece + p)
    decreases |p|
  {
    if p == [] {
      assert p + rest == rest && piece + p == piece;
    } else {
      assert (p + rest)[1..] == p[1..] + rest && piece + [p[0]] + p[1..] == piece + p;
      PiecesOfAtomic(p[1..], Lex(m, p[0]), Deepen(m, depth, p[0]), piece + [p[0]], rest);
    }
  }

  /** Splitting a join of such pieces gives exactly those pieces, so the split of a text is
      the only way to write it as a comma-join of them. */
  lemma {:induction false} SplitOfJoin(pieces: seq<Text>)
    requires Separable(pieces)
    ensures Split(Join(pieces)) == pieces
  {
    var p := pieces[0];
    if |pieces| == 1 {
      PiecesOfAtomic(p, Code, 0, [], []);
      assert p + [] == p && [] + p == p && pieces == [p];
    } else {
      var tail := pieces[1..];
      SplitOfJoin(tail);
      var rest := [','] + Join(tail);
      PiecesOfAtomic(p, Code, 0, [], rest);
      assert p + [','] + Join(tail) == p + rest && rest[1..] == Join(tail) && [] + p == p;
      assert pieces == [p] + tail;
    }
  }

  // ---- what an argument is -------------------------------------------------------------------------

  // One item of an argument list: a bracketed group holds a list of its own, commas included.
  datatype Item =
    | Char(c: char)
    | Escape(c: char)
    | Literal(quote: char, body: Text)
    | Comma
    | Group(open: char, inner: seq<Item>, close: char)

  predicate Formed(x: Item) {
    match x
    case Char(c) => c !in "\\\"'()[]{},"
    case Escape(_) => true
    case Literal(q, body) => (q == '"' || q == '\'') && LiteralBody(body, q)
    case Comma => true
    case Group(open, inner, close) => open in "([{" && close in ")]}" && AllFormed(inner)
  }

  predicate AllFormed(items: seq<Item>) {
    items == [] || (Formed(items[0]) && AllFormed(items[1..]))
  }

  function Spell(x: Item): Text {
    match x
    case Char(c) => [c]
    case Escape(c) => ['\\'] + [c]
    case Literal(q, body) => [q] + (body + [q])
    case Comma => [',']
    case Group(open, inner, close) => [open] + (SpellAll(inner) + [close])
  }

  function SpellAll(items: seq<Item>): Text {
    if items == [] then [] else Spell(items[0]) + SpellAll(items[1..])
  }

  // Read in code at this depth, the text has no top-level comma and ends in code at the same depth.
  predicate Passes(t: Text, m: Mode, depth: int) {
    After(t, m, depth) == (Code, depth) && TopCommas(t, m, depth) == 0
  }

  lemma {:induction false} AfterConcat(a: Text, b: Text, m: Mode, depth: int)
    ensures var (m', d') := After(a, m, depth);
            After(a + b, m, depth) == After(b, m', d') && TopCommas(a + b, m, depth) == TopCommas(a, m, depth) + TopCommas(b, m', d')
    decreases |a|
  {
    if a == [] {
      assert a + b == b;
    } else {
      assert (a + b)[1..] == a[1..] + b;
      AfterConcat(a[1..], b, Lex(m, a[0]), Deepen(m, depth, a[0]));
    }
  }

  lemma ReadsOn(c: char, rest: Text, m: Mode, depth: int)
    ensures After([c] + rest, m, depth) == After(rest, Lex(m, c), Deepen(m, depth, c))
    ensures TopCommas([c] + rest, m, depth) == (if TopComma(m, depth, c) then 1 else 0) + TopCommas(rest, Lex(m, c), Deepen(m, depth, c))
  {
    assert ([c] + rest)[1..] == rest;
  }

  lemma ReadsOne(c: char, m: Mode, depth: int)
    ensures After([c], m, depth) == (Lex(m, c), Deepen(m, depth, c)) && TopCommas([c], m, depth) == if TopComma(m, depth, c) then 1 else 0
  {
    ReadsOn(c, [], m, depth);
    assert [c] + [] == [c];
  }

  lemma {:induction false} LiteralPasses(body: Text, quote: char, depth: int)
    requires LiteralBody(body, quote) && quote != '\\'
    ensures Passes(body + [quote], Quoted(quote), depth)
    decreases |body|
  {
    if body == [] {
      assert body + [quote] == [quote];
      ReadsOne(quote, Quoted(quote), depth);
    } else if body[0] == '\\' {
      var tail := body[2..] + [quote];
      assert body + [quote] == [body[0]] + ([body[1]] + tail);
      ReadsOn(body[0], [body[1]] + tail, Quoted(quote), depth);
      ReadsOn(body[1], tail, QuotedEscaped(quote), depth);
      LiteralPasses(body[2..], quote, depth);
    } else {
      assert body + [quote] == [body[0]] + (body[1..] + [quote]);
      ReadsOn(body[0], body[1..] + [quote], Quoted(quote), depth);
      LiteralPasses(body[1..], quote, depth);
    }
  }

  lemma {:induction false} GroupPasses(open: char, inner: Text, close: char, depth: int)
    requires open in "([{" && close in ")]}" && Passes(inner, Code, depth + 1)
    ensures Passes([open] + (inner + [close]), Code, depth)
  {
    ReadsOn(open, inner + [close], Code, depth);
    AfterConcat(inner, [close], Code, depth + 1);
    ReadsOne(close, Code, depth + 1);
  }

  lemma {:induction false} ItemPasses(x: Item, depth: int)
    requires Formed(x) && depth >= 0 && (x.Comma? ==> depth > 0)
    ensures Passes(Spell(x), Code, depth)
    decreases x
  {
    match x
    case Char(c) => ReadsOne(c, Code, depth);
    case Escape(c) =>
      ReadsOn('\\', [c], Code, depth);
      ReadsOne(c, Escaped, depth);
    case Literal(q, body) =>
      ReadsOn(q, body + [q], Code, depth);
      LiteralPasses(body, q, depth);
    case Comma => ReadsOne(',', Code, depth);
    case Group(open, inner, close) =>
      ItemsPass(inner, depth + 1);
      GroupPasses(open, SpellAll(inner), close, depth);
  }

  lemma {:induction false} ItemsPass(items: seq<Item>, depth: int)
    requires AllFormed(items) && depth >= 0 && (depth == 0 ==> Comma !in items)
    ensures Passes(SpellAll(items), Code, depth)
    decreases items
  {
    if items != [] {
      ItemPasses(items[0], depth);
      ItemsPass(items[1..], depth);
      AfterConcat(Spell(items[0]), SpellAll(items[1..]), Code, depth);
    }
  }

  // A text read as one argument is cut off at the comma after it.
  lemma SplitAfter(p: Text, rest: Text)
    requires Passes(p, Code, 0)
    ensures Split(p + ([','] + rest)) == [p] + Split(rest)
  {
    PiecesOfAtomic(p, Code, 0, [], [','] + rest);
    assert [] + p == p && ([','] + rest)[1..] == rest;
  }

  /** No comma inside a literal separates, and the comma after it does. */
  lemma SplitAfterLiteral(quote: char, body: Text, rest: Text)
    requires quote == '"' || quote == '\''
    requires quote !in body && '\\' !in body
    ensures Split([quote] + (body + [quote]) + ([','] + rest)) == [[quote] + (body + [quote])] + Split(rest)
  {
    PlainBody(body, quote);
    ReadsOn(quote, body + [quote], Code, 0);
    LiteralPasses(body, quote, 0);
    SplitAfter([quote] + (body + [quote]), rest);
  }

  lemma {:induction false} FlatPasses(body: Text, depth: int)
    requires forall i :: 0 <= i < |body| ==> body[i] !in "\\\"'()[]{}"
    requires depth != 0
    ensures Passes(body, Code, depth)
  {
    if body != [] {
      assert body == [body[0]] + body[1..];
      ReadsOn(body[0], body[1..], Code, depth);
      FlatPasses(body[1..], depth);
    }
  }

  /** Nor does a comma inside a pair of brackets of any of the three kinds. */
  lemma SplitAfterBrackets(open: char, body: Text, close: char, rest: Text)
    requires (open == '(' && close == ')') || (open == '[' && close == ']') || (open == '{' && close == '}')
    requires forall i :: 0 <= i < |body| ==> body[i] !in "\\\"'()[]{}"
    ensures Split([open] + (body + [close]) + ([','] + rest)) == [[open] + (body + [close])] + Split(rest)
  {
    FlatPasses(body, 1);
    GroupPasses(open, body, close, 0);
    SplitAfter([open] + (body + [close]), rest);
  }

  function Spelled(arguments: seq<seq<Item>>): (r: seq<Text>)
    ensures |r| == |arguments| && forall i :: 0 <= i < |r| ==> r[i] == SpellAll(arguments[i])
  {
    seq(|arguments|, i requires 0 <= i < |arguments| => SpellAll(arguments[i]))
  }

  /** What the splitter is for: of any arguments, made up of plain characters, escapes, literals in
      single or double quotes and bracketed groups nested to any depth, their list splits into
      exactly those arguments. Commas inside literals and groups separate nothing. */
  lemma SplitOfArguments(arguments: seq<seq<Item>>)
    requires arguments != [] && forall i :: 0 <= i < |arguments| ==> AllFormed(arguments[i]) && Comma !in arguments[i]
    ensures Split(Join(Spelled(arguments))) == Spelled(arguments)
  {
    forall i | 0 <= i < |arguments|
      ensures Passes(SpellAll(arguments[i]), Code, 0)
    {
      ItemsPass(arguments[i], 0);
    }
    SplitOfJoin(Spelled(arguments));
  }
}
