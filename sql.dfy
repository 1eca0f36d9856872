/** The n2 SQL interactor (`peak/tools/n2/sql.py`): canonical buffer names,
    the named-buffer table, the input lexer that finds the first top-level
    `;`, the split of the buffer at that `;`, the `\source` line queue and
    the prompt. */
module Sql {
  import opened Base

  /** `bufname(s)`: a leading `!` is dropped, except from the reserved
      names `!.` (the current buffer) and `!!` (the last executed one). */
  function BufName(s: string): (r: string)
    ensures s == "!." || s == "!!" ==> r == s
    ensures s != "!." && s != "!!" && |s| > 0 && s[0] == '!' ==> s == "!" + r
    ensures (|s| == 0 || s[0] != '!') ==> r == s
  {
    if s == "!." || s == "!!" then s
    else if |s| > 0 && s[0] == '!' then s[1..]
    else s
  }

  /** A canonical buffer name that denotes a shell variable. */
  predicate IsVarName(k: string)
  {
    |k| > 0 && k[0] == '$'
  }

  const Current: string := "!."

  // ---------------------------------------------------------------------
  // The lexer of `updateState`.
  // ---------------------------------------------------------------------

  datatype Quote = Single | Double

  function QuoteChar(q: Quote): char
  {
    if q.Single? then '\'' else '"'
  }

  /** The lexer states of `updateState`: outside any literal, inside a
      quoted literal, just after a `/`, inside a comment, just after a `*`
      inside a comment, and just after a closing quote. */
  datatype LexState = Plain | Quoted(q: Quote) | Slash | Comment | Star | Closed(q: Quote)

  /** The string the source keeps for each state (shown by `$S`). */
  function Name(st: LexState): (n: string)
    ensures n in {"", "'", "\"", "/", "C", "*", "D'", "D\""}
  {
    match st
    case Plain => ""
    case Quoted(q) => if q.Single? then "'" else "\""
    case Slash => "/"
    case Comment => "C"
    case Star => "*"
    case Closed(q) => if q.Single? then "D'" else "D\""
  }

  /** Distinct states have distinct names, so the source's strings and
      these states correspond one to one. */
  lemma NameInjective(a: LexState, b: LexState)
    requires Name(a) == Name(b)
    ensures a == b
  {
  }

  /** States in which a `;` ends the statement. */
  predicate TopLevel(st: LexState)
  {
    st.Plain? || st.Slash? || st.Closed?
  }

  /** The lexer as the source writes it, and the corrected lexer. */
  datatype Lexer = AsWritten | Corrected

  /** One character. `armed` says no `;` has been recorded yet; `rec` says
      this `;` is recorded. */
  datatype StepOut = StepOut(st: LexState, rec: bool)

  /** The transition from the top-level state `Plain`. */
  function TopStep(c: char, armed: bool): StepOut
  {
    if c == '\'' then StepOut(Quoted(Single), false)
    else if c == '"' then StepOut(Quoted(Double), false)
    else if c == '/' then StepOut(Slash, false)
    else if c == ';' && armed then StepOut(Plain, true)
    else StepOut(Plain, false)
  }

  /** Whether `c` is a quote character. */
  predicate IsQuote(c: char)
  {
    c == '\'' || c == '"'
  }

  /** The literal a quote character opens. */
  function QuoteOf(c: char): Quote
    requires IsQuote(c)
  {
    if c == '\'' then Single else Double
  }

  function Step(lx: Lexer, st: LexState, c: char, armed: bool): (o: StepOut)
    ensures o.rec ==> c == ';' && armed && TopLevel(st)
  {
    match st
    case Plain => TopStep(c, armed)
    case Slash =>
      if c == '*' then StepOut(Comment, false)
      else if lx.Corrected? && IsQuote(c) then StepOut(Quoted(QuoteOf(c)), false)
      else if c == ';' && armed then StepOut(st, true)
      else StepOut(Plain, false)
    case Comment =>
      if c == '*' then StepOut(Star, false) else StepOut(st, false)
    case Star =>
      if c == '/' then StepOut(Plain, false)
      else if c == '*' && lx.Corrected? then StepOut(Star, false)
      else StepOut(Comment, false)
    case Quoted(q) =>
      if c == QuoteChar(q) then StepOut(Closed(q), false) else StepOut(st, false)
    case Closed(q) =>
      if c == QuoteChar(q) then StepOut(Quoted(q), false)
      else if lx.Corrected? && IsQuote(c) then StepOut(Quoted(QuoteOf(c)), false)
      else if c == '/' then StepOut(Slash, false)
      else if c == ';' && armed then StepOut(st, true)
      else StepOut(Plain, false)
  }

  /** The corrected lexer differs from the lexer as written in exactly three
      transitions: a `*` after a `*` inside a comment, a quote after a `/`,
      and a quote after a closed literal of the other kind. */
  lemma CorrectedDiffers(st: LexState, c: char, armed: bool)
    ensures Step(Corrected, st, c, armed) != Step(AsWritten, st, c, armed) <==>
      (st.Star? && c == '*') || (st.Slash? && IsQuote(c)) ||
      (st.Closed? && IsQuote(c) && c != QuoteChar(st.q))
  {
  }

  /** Result of lexing a line: the final state and the index, within the
      line, of the `;` that was recorded, if any. */
  datatype Lexed = Lexed(st: LexState, semi: Option<nat>)

  function Scan(lx: Lexer, st: LexState, s: string, armed: bool): (r: Lexed)
    ensures r.semi.Some? ==> armed && r.semi.value < |s| && s[r.semi.value] == ';'
    decreases |s|
  {
    if s == [] then Lexed(st, None)
    else Extend(lx, Scan(lx, st, s[..|s| - 1], armed), s[|s| - 1], armed, |s| - 1)
  }

  /** Lexing one more character, at index `i`, after `p`. */
  function Extend(lx: Lexer, p: Lexed, c: char, armed: bool, i: nat): (r: Lexed)
    ensures r.semi == p.semi || (r.semi == Some(i) && c == ';' && armed && p.semi.None?)
  {
    var o := Step(lx, p.st, c, armed && p.semi.None?);
    Lexed(o.st, if o.rec then Some(i) else p.semi)
  }

  /** Both lexers treat a second `/` and a `;` right after a `/` as the
      source does: a second `/` returns to the top level, so two slashes,
      a star and a `;` record that `;`; a `;` keeps the `/` state, so a
      slash, a `;` and a star open a comment. */
  lemma SlashRules(lx: Lexer)
    ensures Scan(lx, Plain, "//*;", true).semi == Some(3)
    ensures Scan(lx, Plain, "/;*", true) == Lexed(Comment, Some(1))
  {
    assert "//*;"[..3] == "//*" && "//*"[..2] == "//" && "//"[..1] == "/" && "/"[..0] == [];
    assert "/;*"[..2] == "/;" && "/;"[..1] == "/";
  }

  lemma ExtendThen(lx: Lexer, ra: Lexed, q: Lexed, c: char, armed: bool, n: nat, k: nat)
    ensures Extend(lx, Then(ra, q, n), c, armed, n + k) == Then(ra, Extend(lx, q, c, armed && ra.semi.None?, k), n)
  {
  }

  /** The recorded `;` is the first one met in a top-level state. */
  lemma {:induction false} ScanRecordsFirstTopLevel(lx: Lexer, st: LexState, s: string, armed: bool)
    requires Scan(lx, st, s, armed).semi.Some?
    ensures var j := Scan(lx, st, s, armed).semi.value;
      && Scan(lx, st, s[..j], armed).semi.None?
      && TopLevel(Scan(lx, st, s[..j], armed).st)
    decreases |s|
  {
    var p := Scan(lx, st, s[..|s| - 1], armed);
    var j := Scan(lx, st, s, armed).semi.value;
    if p.semi.Some? {
      assert j == p.semi.value;
      ScanRecordsFirstTopLevel(lx, st, s[..|s| - 1], armed);
      assert s[..|s| - 1][..j] == s[..j];
    } else {
      assert j == |s| - 1 && s[..j] == s[..|s| - 1];
    }
  }

  /** Every `;` met in a top-level state while armed is recorded, unless an
      earlier one was. */
  lemma {:induction false} ScanRecordsTopLevel(lx: Lexer, st: LexState, s: string, armed: bool, j: nat)
    requires armed && j < |s| && s[j] == ';'
    requires TopLevel(Scan(lx, st, s[..j], armed).st)
    ensures Scan(lx, st, s, armed).semi.Some? && Scan(lx, st, s, armed).semi.value <= j
    decreases |s|
  {
    var p := Scan(lx, st, s[..|s| - 1], armed);
    if j < |s| - 1 {
      assert s[..|s| - 1][..j] == s[..j];
      ScanRecordsTopLevel(lx, st, s[..|s| - 1], armed, j);
    } else {
      assert s[..j] == s[..|s| - 1];
    }
  }

  /** Lexing `n` characters giving `ra`, then more giving `rb`: the final
      state is `rb`'s and the recorded `;` is the first one. */
  function Then(ra: Lexed, rb: Lexed, n: nat): Lexed
  {
    Lexed(rb.st, if ra.semi.Some? then ra.semi else if rb.semi.Some? then Some(n + rb.semi.value) else None)
  }

  /** The state and the recorded `;` carry over from one piece of input to
      the next: lexing `a + b` is lexing `a`, then `b` from where `a` left
      off. */
  lemma {:induction false} ScanAppend(lx: Lexer, st: LexState, a: string, b: string, armed: bool)
    ensures var ra := Scan(lx, st, a, armed);
      Scan(lx, st, a + b, armed) == Then(ra, Scan(lx, ra.st, b, armed && ra.semi.None?), |a|)
    decreases |b|
  {
    if b == [] {
      assert a + b == a;
    } else {
      var ab, front := a + b, b[..|b| - 1];
      assert ab[..|ab| - 1] == a + front && ab[|ab| - 1] == b[|b| - 1];
      ScanAppend(lx, st, a, front, armed);
      var ra := Scan(lx, st, a, armed);
      ExtendThen(lx, ra, Scan(lx, ra.st, front, armed && ra.semi.None?), b[|b| - 1], armed, |a|, |b| - 1);
    }
  }

  /** Inside an open literal, characters other than its closing quote
      change nothing. */
  lemma {:induction false} ScanInsideQuote(lx: Lexer, q: Quote, t: string, armed: bool)
    requires QuoteChar(q) !in t
    ensures Scan(lx, Quoted(q), t, armed) == Lexed(Quoted(q), None)
    decreases |t|
  {
    if t != [] {
      assert t[|t| - 1] in t;
      assert forall c :: c in t[..|t| - 1] ==> c in t;
      ScanInsideQuote(lx, q, t[..|t| - 1], armed);
    }
  }

  /** Corrected lexer: a quoted literal opened in any top-level state,
      including right after a `/` or right after a closed literal, never
      records a `;` and ends just after its closing quote. */
  lemma QuotedLiteral(st: LexState, q: Quote, t: string, armed: bool)
    requires TopLevel(st) && QuoteChar(q) !in t
    ensures Scan(Corrected, st, [QuoteChar(q)] + t + [QuoteChar(q)], armed) == Lexed(Closed(q), None)
  {
    var c := [QuoteChar(q)];
    assert Scan(Corrected, st, c, armed) == Lexed(Quoted(q), None) by {
      assert c[..0] == [];
    }
    ScanAppend(Corrected, st, c, t, armed);
    ScanInsideQuote(Corrected, q, t, armed);
    ScanAppend(Corrected, st, c + t, c, armed);
    assert Scan(Corrected, Quoted(q), c, armed) == Lexed(Closed(q), None) by {
      assert c[..0] == [];
    }
  }

  /** `t` contains no comment terminator (a `*` followed by `/`). */
  predicate NoCommentEnd(t: string)
  {
    forall i :: 0 <= i < |t| - 1 ==> !(t[i] == '*' && t[i + 1] == '/')
  }

  /** Corrected lexer: inside a comment whose terminator has not come yet,
      the state is `Star` exactly when the last character was a `*`. */
  lemma {:induction false} ScanInsideComment(t: string, armed: bool)
    requires NoCommentEnd(t)
    ensures Scan(Corrected, Comment, t, armed) ==
      Lexed(if t != [] && t[|t| - 1] == '*' then Star else Comment, None)
    decreases |t|
  {
    if t != [] {
      var u := t[..|t| - 1];
      assert NoCommentEnd(u) by {
        forall i | 0 <= i < |u| - 1
          ensures !(u[i] == '*' && u[i + 1] == '/')
        {
          assert u[i] == t[i] && u[i + 1] == t[i + 1];
        }
      }
      ScanInsideComment(u, armed);
      if u != [] && u[|u| - 1] == '*' {
        assert t[|t| - 2] == '*';
      }
    }
  }

  /** Corrected lexer: a comment opened by `/` `*` at the top level or
      after a closed literal, with body `t` free of terminators and closed
      by `*` `/`, never records a `;` and returns to `Plain`. (Right after
      a `/`, a second `/` returns to the top level instead.) */
  lemma CommentCloses(st: LexState, t: string, armed: bool)
    requires st.Plain? || st.Closed?
    requires NoCommentEnd(t)
    ensures Scan(Corrected, st, "/*" + t + "*/", armed) == Lexed(Plain, None)
  {
    CommentOpens(st, armed);
    ScanAppend(Corrected, st, "/*", t, armed);
    ScanInsideComment(t, armed);
    var mid := if t != [] && t[|t| - 1] == '*' then Star else Comment;
    ScanAppend(Corrected, st, "/*" + t, "*/", armed);
    CommentEnds(mid, armed);
  }

  /** Corrected lexer: `/` `*` at the top level or after a closed literal
      opens a comment. */
  lemma CommentOpens(st: LexState, armed: bool)
    requires st.Plain? || st.Closed?
    ensures Scan(Corrected, st, "/*", armed) == Lexed(Comment, None)
  {
    assert "/*"[..1] == "/" && "/"[..0] == [];
  }

  /** Corrected lexer: `*` `/` inside a comment closes it. */
  lemma CommentEnds(st: LexState, armed: bool)
    requires st.Comment? || st.Star?
    ensures Scan(Corrected, st, "*/", armed) == Lexed(Plain, None)
  {
    assert "*/"[..1] == "*" && "*"[..0] == [];
  }

  /** As written: a slash, three stars and a slash leave the lexer inside
      a comment, because a `*` right after a `*` drops back to `Comment`. */
  lemma AsWrittenStarStarStaysInComment()
    ensures Scan(AsWritten, Plain, "/***/", true).st == Comment
    ensures Scan(Corrected, Plain, "/***/", true).st == Plain
  {
    var s := "/***/";
    assert s[..4] == "/***" && s[..4][..3] == "/**" && s[..4][..3][..2] == "/*";
    assert "/*"[..1] == "/" && "/"[..0] == [];
    assert Scan(AsWritten, Plain, "/***", true).st == Comment;
    CommentCloses(Plain, "*", true);
    assert "/*" + "*" + "*/" == s;
  }

  /** As written: a `"` right after a closed `'...'` literal does not open
      a literal, so the `;` inside `"b;c"` is recorded. */
  lemma AsWrittenQuoteAfterLiteral()
    ensures Scan(AsWritten, Plain, "'a'\"b;c\"", true).semi == Some(5)
  {
    var s := "'a'\"b;c\"";
    ScanAppend(AsWritten, Plain, "'a'", "\"b;", true);
    ScanAppend(AsWritten, Plain, "'a'" + "\"b;", "c\"", true);
    assert "'a'"[..2] == "'a" && "'a"[..1] == "'" && "'"[..0] == [];
    assert "\"b;"[..2] == "\"b" && "\"b"[..1] == "\"" && "\""[..0] == [];
    assert Scan(AsWritten, Plain, "'a'", true) == Lexed(Closed(Single), None);
    assert Scan(AsWritten, Closed(Single), "\"b;", true) == Lexed(Plain, Some(2));
    assert "'a'" + "\"b;" + "c\"" == s;
  }

  /** Corrected lexer: the same input records no `;`. */
  lemma CorrectedQuoteAfterLiteral()
    ensures Scan(Corrected, Plain, "'a'\"b;c\"", true).semi == None
  {
    ScanAppend(Corrected, Plain, "'a'", "\"b;c\"", true);
    assert "'a'"[..2] == "'a" && "'a"[..1] == "'" && "'"[..0] == [];
    assert Scan(Corrected, Plain, "'a'", true) == Lexed(Closed(Single), None);
    QuotedLiteral(Closed(Single), Double, "b;c", true);
    assert ['"'] + "b;c" + ['"'] == "\"b;c\"";
    assert "'a'" + "\"b;c\"" == "'a'\"b;c\"";
  }

  /** As written: a `'` right after a `/` does not open a literal, so the
      `;` inside `'a;'` is recorded. */
  lemma AsWrittenQuoteAfterSlash()
    ensures Scan(AsWritten, Plain, "/'a;'", true).semi == Some(3)
  {
    var s := "/'a;'";
    assert s[..4] == "/'a;" && s[..4][..3] == "/'a" && s[..4][..3][..2] == "/'";
    assert "/'"[..1] == "/" && "/"[..0] == [];
    assert Scan(AsWritten, Plain, "/'", true) == Lexed(Plain, None);
  }

  /** Corrected lexer: the same input records no `;`. */
  lemma CorrectedQuoteAfterSlash()
    ensures Scan(Corrected, Plain, "/'a;'", true).semi == None
  {
    ScanAppend(Corrected, Plain, "/", "'a;'", true);
    assert "/"[..0] == [];
    QuotedLiteral(Slash, Single, "a;", true);
    assert ['\''] + "a;" + ['\''] == "'a;'";
    assert "/" + "'a;'" == "/'a;'";
  }

  // ---------------------------------------------------------------------
  // The interactor.
  // ---------------------------------------------------------------------

  /** The lines of a `\source`d file in file order: one trailing newline is
      dropped, the rest is split at newlines. */
  function SourceLines(content: string): (lines: seq<string>)
    requires content != []
    ensures |lines| >= 1 && forall i :: 0 <= i < |lines| ==> '\n' !in lines[i]
  {
    var body := if content[|content| - 1] == '\n' then content[..|content| - 1] else content;
    Split(body, '\n')
  }

  /** The `\source`d lines rejoined, with the dropped newline, are the file. */
  lemma SourceLinesRoundTrip(content: string)
    requires content != []
    ensures Join(SourceLines(content), '\n') + (if content[|content| - 1] == '\n' then "\n" else "") == content
  {
    var body := if content[|content| - 1] == '\n' then content[..|content| - 1] else content;
    JoinSplit(body, '\n');
    if content[|content| - 1] == '\n' {
      assert body + "\n" == content;
    }
  }

  /** The lines `readline` will hand out, in order: `pushbuf` is popped
      from its end. */
  function Pending(pushbuf: seq<string>): (r: seq<string>)
    ensures |r| == |pushbuf| && (pushbuf != [] ==> r[0] == pushbuf[|pushbuf| - 1])
  {
    Reverse(pushbuf)
  }

  /** `s.split(';', 1)[0]`: the text before the first `;`. */
  function BeforeSemicolon(s: string): (r: string)
    ensures IsPrefix(r, s) && ';' !in r
    ensures |r| < |s| ==> s[|r|] == ';'
  {
    if s == [] || s[0] == ';' then [] else [s[0]] + BeforeSemicolon(s[1..])
  }

  /** The first whitespace-delimited word of `s`, if any. */
  function FirstWord(s: string): (r: string)
    ensures forall c :: c in r ==> !IsSpace(c)
    ensures r != [] <==> exists i :: 0 <= i < |s| && !IsSpace(s[i])
    decreases |s|
  {
    if s == [] then []
    else if IsSpace(s[0]) then
      var r := FirstWord(s[1..]);
      assert forall i :: 0 < i < |s| ==> s[i] == s[1..][i - 1];
      r
    else [s[0]] + Word(s[1..])
  }

  /** ASCII lower case. */
  function Lower(s: string): (r: string)
    ensures |r| == |s|
    ensures forall i :: 0 <= i < |s| ==> r[i] == if 'A' <= s[i] <= 'Z' then (s[i] as int + 32) as char else s[i]
  {
    if s == [] then [] else
      [if 'A' <= s[0] <= 'Z' then (s[0] as int + 32) as char else s[0]] + Lower(s[1..])
  }

  /** The command word `interact` looks up for a line: the first word of
      the text before the first `;`, lower-cased; None when that text is
      blank. */
  function CommandWord(l: string): (r: Option<string>)
    ensures r.Some? ==> r.value != [] && ';' !in r.value
    ensures r.None? <==> forall i :: 0 <= i < |BeforeSemicolon(l)| ==> IsSpace(BeforeSemicolon(l)[i])
  {
    var w := FirstWord(BeforeSemicolon(l));
    if w == [] then None
    else
      assert forall c :: c in Lower(w) ==> c != ';' by {
        forall i | 0 <= i < |w| ensures Lower(w)[i] != ';' {
          assert w[i] in w;
          FirstWordFrom(BeforeSemicolon(l), w[i]);
        }
      }
      Some(Lower(w))
  }

  /** Every character of `FirstWord(s)` occurs in `s`. */
  lemma {:induction false} FirstWordFrom(s: string, c: char)
    requires c in FirstWord(s)
    ensures c in s
    decreases |s|
  {
    if IsSpace(s[0]) {
      FirstWordFrom(s[1..], c);
    } else if c != s[0] {
      assert c in Word(s[1..]);
      assert Word(s[1..]) == s[1..][..|Word(s[1..])|];
      assert c in s[1..];
    }
  }

  class Interactor {
    var state: LexState
    var line: nat
    var semi: int
    var bufs: map<string, string>
    /** The shell's variables, reached by `getvar`/`setvar`. */
    var vars: map<string, string>
    var pushbuf: seq<string>
    var isOutside: bool

    constructor (shellVars: map<string, string>)
      ensures state == Plain && line == 1 && semi == -1 && bufs == map[]
      ensures vars == shellVars && pushbuf == [] && !isOutside
    {
      state, line, semi, bufs := Plain, 1, -1, map[];
      vars, pushbuf, isOutside := shellVars, [], false;
    }

    /** `getBuf(name)`: the shell variable for a `$` name, else the buffer;
        a missing one reads as ''. */
    function GetBuf(name: string): (r: string)
      reads this`bufs, this`vars
      ensures var k := BufName(name);
        (!IsVarName(k) && k !in bufs) || (IsVarName(k) && k[1..] !in vars) ==> r == ""
    {
      var k := BufName(name);
      if IsVarName(k) then
        if k[1..] in vars then vars[k[1..]] else ""
      else if k in bufs then bufs[k] else ""
    }

    /** `setBuf(val, name, append)`. */
    method SetBuf(val: string, name: string, append: bool)
      modifies this`bufs, this`vars
      ensures GetBuf(name) == if append then old(GetBuf(name)) + val else val
      ensures forall n :: BufName(n) != BufName(name) ==> GetBuf(n) == old(GetBuf(n))
      ensures var k := BufName(name);
        if IsVarName(k) then bufs == old(bufs) && vars == old(vars)[k[1..] := GetBuf(name)]
        else vars == old(vars) && bufs == old(bufs)[k := GetBuf(name)]
    {
      var k := BufName(name);
      var v := if append then GetBuf(name) + val else val;
      if IsVarName(k) {
        vars := vars[k[1..] := v];
      } else {
        bufs := bufs[k := v];
      }
      forall n | BufName(n) != k
        ensures GetBuf(n) == old(GetBuf(n))
      {
        var m := BufName(n);
        if IsVarName(m) && IsVarName(k) {
          assert m == [m[0]] + m[1..] && k == [k[0]] + k[1..];
        }
      }
    }

    /** `resetBuf()`. */
    method ResetBuf()
      modifies this`state, this`line, this`semi, this`bufs
      ensures state == Plain && line == 1 && semi == -1
      ensures bufs == old(bufs)[Current := ""] && GetBuf(Current) == ""
    {
      state, line, semi := Plain, 1, -1;
      bufs := bufs[Current := ""];
    }

    /** `updateState(s)`: lexes `s` from the current state, records the
        position in the current buffer of its first top-level `;` unless
        one is already recorded, and appends `s` to the current buffer. */
    method UpdateState(s: string)
      modifies this`state, this`semi, this`bufs
      ensures var r := Scan(Corrected, old(state), s, old(semi) < 0);
        && state == r.st
        && semi == (if r.semi.Some? then |old(GetBuf(Current))| + r.semi.value else old(semi))
      ensures bufs == old(bufs)[Current := old(GetBuf(Current)) + s]
      ensures GetBuf(Current) == old(GetBuf(Current)) + s
      ensures old(semi) >= 0 ==> semi == old(semi)
      ensures old(semi) < 0 && semi >= 0 ==> semi < |GetBuf(Current)| && GetBuf(Current)[semi] == ';'
    {
      ghost var st0, armed := state, semi < 0;
      var b0 := GetBuf(Current);
      var st := state;
      var base := |b0|;
      var i := 0;
      while i < |s|
        invariant 0 <= i <= |s| && bufs == old(bufs)
        invariant var r := Scan(Corrected, st0, s[..i], armed);
          st == r.st && semi == if r.semi.Some? then base + r.semi.value else old(semi)
      {
        assert s[..i + 1][..i] == s[..i];
        var o := Step(Corrected, st, s[i], semi < 0);
        st := o.st;
        if o.rec {
          semi := base + i;
        }
        i := i + 1;
      }
      assert s[..i] == s;
      state := st;
      assert GetBuf(Current) == b0;
      bufs := bufs[Current := b0 + s];
    }

    /** One line of `interact` that is not a command: counts the line,
        lexes it and, once a `;` is recorded, cuts the current buffer
        before it and returns the text after it for `go`. */
    method Feed(l: string) returns (goText: Option<string>)
      modifies this`state, this`line, this`semi, this`bufs
      ensures line == old(line) + 1
      ensures var full := old(GetBuf(Current)) + l;
        && (goText.None? <==> semi < 0)
        && (goText.Some? ==> GetBuf(Current) == Take(full, semi) + "\n" && goText.value == Drop(full, semi + 1))
        && (old(semi) < 0 && goText.Some? ==>
              semi < |full| && full == full[..semi] + ";" + goText.value)
    {
      line := line + 1;
      UpdateState(l);
      if semi >= 0 {
        goText := CutAtSemi();
      } else {
        goText := None;
      }
    }

    /** The cut of `interact` at a recorded `;`: the current buffer keeps
        the text before it plus a newline, the text after it is returned. */
    method CutAtSemi() returns (goText: Option<string>)
      requires semi >= 0
      modifies this`bufs
      ensures var b := old(GetBuf(Current));
        && GetBuf(Current) == Take(b, semi) + "\n" && goText == Some(Drop(b, semi + 1))
        && (semi < |b| ==> b == b[..semi] + [b[semi]] + goText.value)
    {
      var b := GetBuf(Current);
      bufs := bufs[Current := Take(b, semi) + "\n"];
      goText := Some(Drop(b, semi + 1));
      if semi < |b| {
        assert b == b[..semi] + [b[semi]] + b[semi + 1..];
      }
    }

    /** `readline(prompt)`: the next queued line, else a line from the
        shell (`input`). */
    method ReadLine(input: string) returns (l: string)
      modifies this`pushbuf
      ensures old(pushbuf) == [] ==> l == input && pushbuf == []
      ensures old(pushbuf) != [] ==>
        && pushbuf == old(pushbuf)[..|old(pushbuf)| - 1]
        && l == Pending(old(pushbuf))[0] && Pending(pushbuf) == Pending(old(pushbuf))[1..]
    {
      if pushbuf != [] {
        l := pushbuf[|pushbuf| - 1];
        var rest := pushbuf[..|pushbuf| - 1];
        assert pushbuf == rest + [l];
        ReverseAppend(rest, [l]);
        pushbuf := rest;
      } else {
        l := input;
      }
    }

    /** `\source [-r] file` with the file's text: queues its lines behind
        the ones already queued; an empty file raises and is reported,
        queuing nothing. The result says whether to reset the buffer. */
    method Source(content: string, reset: bool) returns (r: Option<bool>)
      modifies this`pushbuf
      ensures content == [] ==> r.None? && pushbuf == old(pushbuf)
      ensures content != [] ==>
        && r == Some(reset)
        && pushbuf == Reverse(SourceLines(content)) + old(pushbuf)
        && Pending(pushbuf) == Pending(old(pushbuf)) + SourceLines(content)
    {
      if content == [] {
        return None;
      }
      var lines := SourceLines(content);
      ReverseAppend(Reverse(lines), pushbuf);
      ReverseReverse(lines);
      pushbuf := Reverse(lines) + pushbuf;
      return Some(reset);
    }

    /** The `sql.prompt` shell variable, '' when unset. */
    function PromptTemplate(): string
      reads this`vars
    {
      if "sql.prompt" in vars then vars["sql.prompt"] else ""
    }

    /** `prompt()`: the template with `$L`, `$S` and `$T` replaced by the
        line number, the lexer state and `U` when outside a transaction. */
    function Prompt(): string
      reads this`vars, this`line, this`state, this`isOutside
    {
      Replace(Replace(Replace(PromptTemplate(), "$L", NatToString(line)), "$S", Name(state)),
        "$T", if isOutside then "U" else "")
    }
  }

  /** A prompt template without `$` is shown as it is. */
  lemma PromptPlain(it: Interactor)
    requires '$' !in it.PromptTemplate()
    ensures it.Prompt() == it.PromptTemplate()
  {
    var t := it.PromptTemplate();
    NoDollarNoOccurrence(t, "$L", NatToString(it.line));
    NoDollarNoOccurrence(t, "$S", Name(it.state));
    NoDollarNoOccurrence(t, "$T", if it.isOutside then "U" else "");
  }

  /** The template `$L> ` shows the line number. */
  lemma PromptLineNumber(it: Interactor)
    requires it.PromptTemplate() == "$L> "
    ensures it.Prompt() == NatToString(it.line) + "> "
  {
    var n := NatToString(it.line);
    assert "$L> "[..2] == "$L" && "$L> "[2..] == "> ";
    assert Replace("> ", "$L", n) == "> " by {
      NoDollarNoOccurrence("> ", "$L", n);
    }
    var t := n + "> ";
    assert '$' !in t by {
      assert forall i :: 0 <= i < |n| ==> '0' <= n[i] <= '9';
      assert forall i :: 0 <= i < |t| ==> t[i] != '$' by {
        assert t[|n|..] == "> ";
      }
    }
    NoDollarNoOccurrence(t, "$S", Name(it.state));
    NoDollarNoOccurrence(t, "$T", if it.isOutside then "U" else "");
  }

  /** A template without `$` is left alone by a `$`-pattern replacement. */
  lemma NoDollarNoOccurrence(t: string, pat: string, rep: string)
    requires '$' !in t && |pat| > 0 && pat[0] == '$'
    ensures Replace(t, pat, rep) == t
  {
    ReplaceAbsent(t, pat, rep);
  }
}
