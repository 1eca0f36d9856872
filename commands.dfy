/** Command-line handling of the n2 shell (`peak/tools/n2/commands.py`):
    the split at the first unquoted `|`, the quote-aware argument split,
    the classification of redirection tokens with the streams they open,
    and the argument-count check of shell commands. */
module Commands {
  import opened Base

  // ---------------------------------------------------------------------
  // pipesplit
  // ---------------------------------------------------------------------

  /** The scanner state of `pipesplit`: inside a `"` span, and just after a
      backslash inside one. */
  datatype PipeLex = PipeLex(quoted: bool, back: bool)

  function PipeStep(p: PipeLex, c: char): PipeLex
  {
    if p.back then PipeLex(p.quoted, false)
    else if c == '\\' && p.quoted then PipeLex(true, true)
    else if c == '"' then PipeLex(!p.quoted, false)
    else p
  }

  /** The state after scanning `s`. A backslash only escapes inside
      quotes, so outside quotes nothing is escaped. */
  function PipeLexOf(s: string): (p: PipeLex)
    ensures p.back ==> p.quoted
  {
    if s == [] then PipeLex(false, false) else PipeStep(PipeLexOf(s[..|s| - 1]), s[|s| - 1])
  }

  /** `s[i]` is a `|` that `pipesplit` splits at when it gets there. */
  predicate PipeAt(s: string, i: int)
  {
    0 <= i < |s| && s[i] == '|' && !PipeLexOf(s[..i]).quoted
  }

  /** The first `|` that `pipesplit` splits at, as a function. */
  function FirstPipe(s: string, from: nat): (r: Option<nat>)
    requires from <= |s|
    ensures r.Some? ==> from <= r.value < |s| && PipeAt(s, r.value) && forall j :: from <= j < r.value ==> !PipeAt(s, j)
    ensures r.None? ==> forall j :: from <= j < |s| ==> !PipeAt(s, j)
    decreases |s| - from
  {
    if from == |s| then None
    else if PipeAt(s, from) then Some(from)
    else FirstPipe(s, from + 1)
  }

  /** `pipesplit` as a function. */
  function PipeSplitSpec(s: string): (string, Option<string>)
  {
    match FirstPipe(s, 0)
    case None => (s, None)
    case Some(i) => (s[..i], Some(s[i + 1..]))
  }

  /** `pipesplit(s)`: with no `|` outside double quotes, `(s, None)`;
      otherwise the text before the first such `|` and the text after it. */
  method PipeSplit(s: string) returns (cmd: string, pipeto: Option<string>)
    ensures (cmd, pipeto) == PipeSplitSpec(s)
    ensures '|' !in s ==> cmd == s && pipeto.None?
  {
    if '|' !in s {
      return s, None;
    }
    var quoted, back := false, false;
    var i := 0;
    while i < |s|
      invariant 0 <= i <= |s|
      invariant PipeLex(quoted, back) == PipeLexOf(s[..i])
      invariant FirstPipe(s, i) == FirstPipe(s, 0)
    {
      var c := s[i];
      assert s[..i + 1][..i] == s[..i];
      if back {
        back := false;
      } else if c == '\\' && quoted {
        back := true;
      } else if c == '"' {
        quoted := !quoted;
      } else if c == '|' && !quoted {
        assert PipeAt(s, i);
        return s[..i], Some(s[i + 1..]);
      }
      i := i + 1;
    }
    return s, None;
  }

  /** Inside a quoted span, a backslash and a `"` leave the span open. */
  lemma EscapedQuoteStaysQuoted(p: string)
    requires PipeLexOf(p) == PipeLex(true, false)
    ensures PipeLexOf(p + "\\\"") == PipeLex(true, false)
  {
    var q := p + "\\\"";
    assert q[..|q| - 1] == p + "\\" && (p + "\\")[..|p|] == p;
  }

  /** A `"`-span without quotes or backslashes inside, opens outside
      quotes, leaves the scanner quoted at every position inside it, so no
      `|` in it is split at. */
  lemma {:induction false} InsideQuotedSpan(a: string, t: string)
    requires !PipeLexOf(a).quoted && '"' !in t && '\\' !in t
    ensures PipeLexOf(a + "\"" + t) == PipeLex(true, false)
    decreases |t|
  {
    if t == [] {
      var q := a + "\"";
      assert q[..|q| - 1] == a;
      assert a + "\"" + t == q;
    } else {
      var u := t[..|t| - 1];
      assert forall c :: c in u ==> c in t;
      InsideQuotedSpan(a, u);
      var q := a + "\"" + t;
      assert q[..|q| - 1] == a + "\"" + u;
      assert t[|t| - 1] in t;
    }
  }

  /** No `|` inside a closed `"`-span opens outside quotes is split at,
      whatever follows it. */
  lemma NoPipeInQuotes(a: string, t: string, b: string, i: int)
    requires !PipeLexOf(a).quoted && '"' !in t && '\\' !in t
    requires |a| < i <= |a| + |t|
    ensures !PipeAt(a + "\"" + t + "\"" + b, i)
  {
    var s := a + "\"" + t + "\"" + b;
    var k := i - |a| - 1;
    assert s[..i] == a + "\"" + t[..k];
    assert forall c :: c in t[..k] ==> c in t;
    InsideQuotedSpan(a, t[..k]);
  }

  // ---------------------------------------------------------------------
  // qsplit
  // ---------------------------------------------------------------------

  /** A run of non-whitespace and what follows it. */
  function WordRest(s: string): (r: (string, string))
    ensures r.0 + r.1 == s
  {
    if s == [] || IsSpace(s[0]) then ([], s)
    else
      var (w, t) := WordRest(s[1..]);
      assert s == [s[0]] + s[1..];
      ([s[0]] + w, t)
  }

  /** The run holds no whitespace and what follows starts with some. */
  lemma {:induction false} WordRestShape(s: string)
    ensures forall c :: c in WordRest(s).0 ==> !IsSpace(c)
    ensures WordRest(s).1 != [] ==> IsSpace(WordRest(s).1[0])
    decreases |s|
  {
    if s != [] && !IsSpace(s[0]) {
      WordRestShape(s[1..]);
    }
  }

  /** One step of the regular-expression split: the leading whitespace,
      the run of non-whitespace after it, and the rest. */
  function SplitOff(s: string): (r: (string, string, string))
    ensures r.0 + r.1 + r.2 == s
  {
    if s != [] && IsSpace(s[0]) then
      var (ws, w, t) := SplitOff(s[1..]);
      assert s == [s[0]] + s[1..];
      ([s[0]] + ws, w, t)
    else
      var (w, t) := WordRest(s);
      ([], w, t)
  }

  predicate AllSpace(s: string)
  {
    forall k :: 0 <= k < |s| ==> IsSpace(s[k])
  }

  /** The pieces of the split: whitespace, a word without whitespace,
      and a rest that is empty when the word is and otherwise starts a
      new separator. */
  lemma {:induction false} SplitOffShape(s: string)
    ensures var r := SplitOff(s);
      && AllSpace(r.0)
      && (forall c :: c in r.1 ==> !IsSpace(c))
      && (r.1 == [] ==> r.2 == [])
      && (r.2 != [] ==> IsSpace(r.2[0]))
    decreases |s|
  {
    if s != [] && IsSpace(s[0]) {
      SplitOffShape(s[1..]);
    } else {
      WordRestShape(s);
    }
  }

  /** The `(separator, word)` pairs of `qsplit`: the regular-expression
      split at runs of non-whitespace, paired, ending with the trailing
      whitespace and an empty word. */
  function Chunks(s: string): (cs: seq<(string, string)>)
    ensures |cs| >= 1 && cs[|cs| - 1].1 == []
    ensures forall i :: 0 <= i < |cs| - 1 ==> cs[i].1 != []
    decreases |s|
  {
    var (ws, w, tail) := SplitOff(s);
    if w == [] then [(ws, [])]
    else [(ws, w)] + Chunks(tail)
  }

  /** Concatenating the pairs gives back the text: the split loses
      nothing. */
  lemma {:induction false} ChunksCover(s: string)
    ensures Concat(Chunks(s)) == s
    decreases |s|
  {
    var r := SplitOff(s);
    var ws, w, tail := r.0, r.1, r.2;
    SplitOffShape(s);
    if w == [] {
      assert Concat(Chunks(s)) == ws + [] + Concat([]);
    } else {
      ChunksCover(tail);
      var cs := Chunks(s);
      assert cs[1..] == Chunks(tail);
      assert Concat(cs) == ws + w + Concat(Chunks(tail));
    }
  }

  /** Every separator is whitespace and no word holds any. */
  lemma {:induction false} ChunksShape(s: string, i: nat)
    requires i < |Chunks(s)|
    ensures forall k :: 0 <= k < |Chunks(s)[i].0| ==> IsSpace(Chunks(s)[i].0[k])
    ensures forall c :: c in Chunks(s)[i].1 ==> !IsSpace(c)
    decreases |s|
  {
    var r := SplitOff(s);
    var w, tail := r.1, r.2;
    SplitOffShape(s);
    if w != [] && i > 0 {
      var cs := Chunks(s);
      assert cs[i] == Chunks(tail)[i - 1];
      ChunksShape(tail, i - 1);
    }
  }

  /** The pairs written out one after another. */
  function Concat(cs: seq<(string, string)>): string
  {
    if cs == [] then [] else cs[0].0 + cs[0].1 + Concat(cs[1..])
  }

  /** Whether a word toggles the quoting: every `"` not escaped by a
      backslash flips it. */
  function Toggled(t: string, quoted: bool, back: bool): bool
    decreases |t|
  {
    if t == [] then quoted
    else if back then Toggled(t[1..], quoted, false)
    else if t[0] == '\\' then Toggled(t[1..], quoted, true)
    else if t[0] == '"' then Toggled(t[1..], !quoted, false)
    else Toggled(t[1..], quoted, false)
  }

  lemma {:induction false} ToggledNoQuote(t: string, quoted: bool, back: bool)
    requires '"' !in t
    ensures Toggled(t, quoted, back) == quoted
    decreases |t|
  {
    if t != [] {
      assert forall c :: c in t[1..] ==> c in t;
      ToggledNoQuote(t[1..], quoted, t[0] == '\\' && !back);
    }
  }

  /** The state of `qsplit`'s loop: finished arguments, the current one,
      and whether a `"` span is open. */
  datatype Grouping = Grouping(done: seq<string>, cur: string, quoted: bool)

  /** One pair: inside quotes the separator joins the current argument,
      otherwise the current argument is finished; then the word joins it. */
  function GroupStep(g: Grouping, ws: string, t: string): Grouping
  {
    var h := if g.quoted then Grouping(g.done, g.cur + ws, true) else Grouping(g.done + [g.cur], [], false);
    Grouping(h.done, h.cur + t, Toggled(t, h.quoted, false))
  }

  function Group(cs: seq<(string, string)>): Grouping
  {
    if cs == [] then Grouping([], [], false)
    else GroupStep(Group(cs[..|cs| - 1]), cs[|cs| - 1].0, cs[|cs| - 1].1)
  }

  /** The non-empty strings of `xs`, in order. */
  function NonEmpty(xs: seq<string>): (r: seq<string>)
    ensures forall i :: 0 <= i < |r| ==> r[i] != []
  {
    if xs == [] then []
    else if xs[|xs| - 1] == [] then NonEmpty(xs[..|xs| - 1])
    else NonEmpty(xs[..|xs| - 1]) + [xs[|xs| - 1]]
  }

  lemma {:induction false} NonEmptyAppend(a: seq<string>, b: seq<string>)
    ensures NonEmpty(a + b) == NonEmpty(a) + NonEmpty(b)
    decreases |b|
  {
    if b == [] {
      assert a + b == a;
    } else {
      assert (a + b)[..|a + b| - 1] == a + b[..|b| - 1];
      NonEmptyAppend(a, b[..|b| - 1]);
    }
  }

  /** The arguments `qsplit` returns, before `dequote`. */
  function QArgs(s: string): (r: seq<string>)
    ensures forall i :: 0 <= i < |r| ==> r[i] != []
  {
    var g := Group(Chunks(s));
    NonEmpty(g.done + [g.cur])
  }

  /** The words of the pairs (Python `s.split()`). */
  function Words(cs: seq<(string, string)>): seq<string>
  {
    if cs == [] then [] else
      Words(cs[..|cs| - 1]) + (if cs[|cs| - 1].1 == [] then [] else [cs[|cs| - 1].1])
  }

  /** Without any `"`, `qsplit` splits exactly at whitespace runs. */
  lemma UnquotedSplitsAtWhitespace(s: string)
    requires '"' !in s
    ensures QArgs(s) == Words(Chunks(s))
  {
    ChunksCover(s);
    var cs := Chunks(s);
    assert forall i :: 0 <= i < |cs| ==> '"' !in cs[i].1 by {
      forall i | 0 <= i < |cs|
        ensures '"' !in cs[i].1
      {
        ConcatHolds(cs, i);
      }
    }
    GroupUnquoted(cs);
  }

  /** The characters of each word occur in the concatenation. */
  lemma {:induction false} ConcatHolds(cs: seq<(string, string)>, i: nat)
    requires i < |cs|
    ensures forall c :: c in cs[i].1 ==> c in Concat(cs)
  {
    if i > 0 {
      ConcatHolds(cs[1..], i - 1);
      assert cs[1..][i - 1] == cs[i];
    }
  }

  /** With no `"` in any word, the grouping never quotes and finishes one
      argument per pair. */
  lemma {:induction false} GroupUnquoted(cs: seq<(string, string)>)
    requires forall i :: 0 <= i < |cs| ==> '"' !in cs[i].1
    ensures !Group(cs).quoted
    ensures NonEmpty(Group(cs).done + [Group(cs).cur]) == Words(cs)
  {
    if cs == [] {
      var one: seq<string> := [[]];
      assert one[..0] == [];
      assert Group(cs).done + [Group(cs).cur] == [[]];
    } else {
      var front := cs[..|cs| - 1];
      var t := cs[|cs| - 1].1;
      assert forall i :: 0 <= i < |front| ==> front[i] == cs[i];
      GroupUnquoted(front);
      var g := Group(front);
      ToggledNoQuote(t, false, false);
      assert Group(cs) == Grouping(g.done + [g.cur], t, false);
      var xs := g.done + [g.cur];
      NonEmptyAppend(xs, [t]);
      assert [t][..0] == [];
      assert NonEmpty([t]) == (if t == [] then [] else [t]);
      assert Words(cs) == Words(front) + (if t == [] then [] else [t]);
    }
  }

  /** One word's quote toggling, as `qsplit`'s inner loop does it. */
  method ToggleQuotes(t: string, quoted0: bool) returns (quoted: bool)
    ensures quoted == Toggled(t, quoted0, false)
  {
    quoted := quoted0;
    var back := false;
    var i := 0;
    while i < |t|
      invariant 0 <= i <= |t|
      invariant Toggled(t[i..], quoted, back) == Toggled(t, quoted0, false)
    {
      var c := t[i];
      assert t[i..][1..] == t[i + 1..];
      if back {
        back := false;
      } else if c == '\\' {
        back := true;
      } else if c == '"' {
        quoted := !quoted;
      }
      i := i + 1;
    }
  }

  /** `qsplit(s)` without its final `dequote`. */
  method QSplit(s: string) returns (args: seq<string>)
    ensures args == QArgs(s)
    ensures forall i :: 0 <= i < |args| ==> args[i] != []
  {
    var cs := Chunks(s);
    var done: seq<string> := [];
    var cur: string := [];
    var quoted := false;
    var i := 0;
    while i < |cs|
      invariant 0 <= i <= |cs|
      invariant Group(cs[..i]) == Grouping(done, cur, quoted)
    {
      var (ws, t) := cs[i];
      assert cs[..i + 1][..i] == cs[..i];
      if quoted {
        cur := cur + ws;
      } else {
        done := done + [cur];
        cur := [];
      }
      cur := cur + t;
      quoted := ToggleQuotes(t, quoted);
      i := i + 1;
    }
    assert cs[..i] == cs;
    args := NonEmpty(done + [cur]);
  }

  // ---------------------------------------------------------------------
  // Quoted spans in qsplit
  // ---------------------------------------------------------------------

  /** The grouping carried on from state `g` over the pairs, first pair
      first: the order in which `qsplit`'s loop takes them. */
  function Run(g: Grouping, cs: seq<(string, string)>): Grouping
    decreases |cs|
  {
    if cs == [] then g else Run(GroupStep(g, cs[0].0, cs[0].1), cs[1..])
  }

  lemma {:induction false} RunSnoc(g: Grouping, cs: seq<(string, string)>, c: (string, string))
    ensures Run(g, cs + [c]) == GroupStep(Run(g, cs), c.0, c.1)
    decreases |cs|
  {
    if cs == [] {
      assert [] + [c] == [c];
    } else {
      assert (cs + [c])[1..] == cs[1..] + [c];
      RunSnoc(GroupStep(g, cs[0].0, cs[0].1), cs[1..], c);
    }
  }

  /** The grouping is the loop's, run from the start. */
  lemma {:induction false} GroupRun(cs: seq<(string, string)>)
    ensures Group(cs) == Run(Grouping([], [], false), cs)
    decreases |cs|
  {
    if cs != [] {
      var front := cs[..|cs| - 1];
      GroupRun(front);
      RunSnoc(Grouping([], [], false), front, cs[|cs| - 1]);
      assert front + [cs[|cs| - 1]] == cs;
    }
  }

  lemma {:induction false} RunAppend(g: Grouping, a: seq<(string, string)>, b: seq<(string, string)>)
    ensures Run(g, a + b) == Run(Run(g, a), b)
    decreases |a|
  {
    if a == [] {
      assert a + b == b;
    } else {
      assert (a + b)[1..] == a[1..] + b;
      RunAppend(GroupStep(g, a[0].0, a[0].1), a[1..], b);
    }
  }

  /** Whitespace, a non-empty word and a rest that starts a new separator
      are the one way `SplitOff` can cut a text. */
  lemma {:induction false} SplitOffUnique(ws: string, w: string, r: string)
    requires AllSpace(ws) && w != [] && (forall c :: c in w ==> !IsSpace(c))
    requires r == [] || IsSpace(r[0])
    ensures SplitOff(ws + w + r) == (ws, w, r)
    decreases |ws|
  {
    var s := ws + w + r;
    if ws == [] {
      assert s == w + r && !IsSpace(s[0]);
      WordRestUnique(w, r);
    } else {
      assert s[1..] == ws[1..] + w + r;
      SplitOffUnique(ws[1..], w, r);
      assert [ws[0]] + ws[1..] == ws;
    }
  }

  lemma {:induction false} WordRestUnique(w: string, r: string)
    requires (forall c :: c in w ==> !IsSpace(c)) && (r == [] || IsSpace(r[0]))
    ensures WordRest(w + r) == (w, r)
    decreases |w|
  {
    if w == [] {
      assert w + r == r;
    } else {
      assert (w + r)[0] == w[0] && (w + r)[1..] == w[1..] + r;
      assert forall c :: c in w[1..] ==> c in w;
      WordRestUnique(w[1..], r);
      assert [w[0]] + w[1..] == w;
    }
  }

  /** The pairs of `p` before its last one, which holds only the
      trailing whitespace. */
  function Front(p: string): seq<(string, string)>
  {
    var cs := Chunks(p);
    cs[..|cs| - 1]
  }

  /** The whitespace at the end of `p`, the separator of its last pair. */
  function Trailing(p: string): string
  {
    var cs := Chunks(p);
    cs[|cs| - 1].0
  }

  lemma FrontTrailing(p: string)
    ensures var cs := Chunks(p);
      Front(p) == cs[..|cs| - 1] && Trailing(p) == cs[|cs| - 1].0
  {
  }

  /** The pairs before the last of a text whose split finds a word are
      that word's pair then those of the rest. */
  lemma FrontCons(p: string)
    ensures var sp := SplitOff(p);
      sp.1 != [] ==> Front(p) == [(sp.0, sp.1)] + Front(sp.2)
  {
    var sp := SplitOff(p);
    if sp.1 != [] {
      var cs, ct := Chunks(p), Chunks(sp.2);
      ChunksCons(p);
      FrontTrailing(p);
      FrontTrailing(sp.2);
      ConsFront((sp.0, sp.1), ct, cs, ct[..|ct| - 1], []);
    }
  }

  /** A text whose split finds a word ends with the same whitespace as
      the rest after that word. */
  lemma TrailingCons(p: string)
    ensures var sp := SplitOff(p);
      sp.1 != [] ==> Trailing(p) == Trailing(sp.2)
  {
    var sp := SplitOff(p);
    if sp.1 != [] {
      var cs, ct := Chunks(p), Chunks(sp.2);
      ChunksCons(p);
      FrontTrailing(p);
      FrontTrailing(sp.2);
      ConsFront((sp.0, sp.1), ct, cs, ct[..|ct| - 1], []);
    }
  }

  /** Text appended after `p` that starts with whitespace joins the
      trailing whitespace of `p`, and the pairs of `p` before it stay. */
  lemma {:induction false} ChunksAppend(p: string, x: string)
    requires x != [] && IsSpace(x[0])
    ensures Chunks(p + x) == Front(p) + Chunks(Trailing(p) + x)
    decreases |p|
  {
    var sp := SplitOff(p);
    if sp.1 == [] {
      ChunksNil(p);
      FrontTrailing(p);
    } else {
      ChunksAppend(sp.2, x);
      ChunksAppendHead(p, x);
      FrontCons(p);
      TrailingCons(p);
      ConcatAssoc([(sp.0, sp.1)], Front(sp.2), Chunks(Trailing(sp.2) + x));
    }
  }

  /** Whitespace appended after a text whose split finds a word leaves
      that first pair as it is. */
  lemma ChunksAppendHead(p: string, x: string)
    requires x != [] && IsSpace(x[0])
    ensures var sp := SplitOff(p);
      sp.1 != [] ==> Chunks(p + x) == [(sp.0, sp.1)] + Chunks(sp.2 + x)
  {
    var sp := SplitOff(p);
    var ws, w, tail := sp.0, sp.1, sp.2;
    SplitOffShape(p);
    if w != [] {
      var r := tail + x;
      assert r[0] == (if tail == [] then x[0] else tail[0]);
      ConcatAssoc(ws + w, tail, x);
      SplitOffUnique(ws, w, r);
      ChunksCons(p + x);
    }
  }

  /** A list with one more element in front keeps its last element, and
      its front gains the same element. */
  lemma ConsFront<T>(c: T, ct: seq<T>, cs: seq<T>, b: seq<T>, e: seq<T>)
    requires ct != [] && cs == [c] + ct && b == ct[..|ct| - 1] + e
    ensures cs[|cs| - 1] == ct[|ct| - 1] && [c] + b == cs[..|cs| - 1] + e
  {
    assert cs[..|cs| - 1] == [c] + ct[..|ct| - 1];
  }

  /** Text with no `"` and no backslash: inside a `"`-span it neither
      closes the span nor escapes anything. */
  predicate Plain(s: string)
  {
    '"' !in s && '\\' !in s
  }

  lemma PlainSlice(s: string, i: int, j: int)
    requires Plain(s) && 0 <= i <= j <= |s|
    ensures Plain(s[i..j])
  {
    assert forall c :: c in s[i..j] ==> c in s;
  }

  /** The pairs of a text whose split finds a word start with that word. */
  lemma ChunksCons(s: string)
    ensures var r := SplitOff(s);
      r.1 != [] ==> Chunks(s) == [(r.0, r.1)] + Chunks(r.2)
  {
  }

  /** A text whose split finds no word is all separator. */
  lemma ChunksNil(s: string)
    ensures var r := SplitOff(s);
      r.1 == [] ==> r.0 == s && Chunks(s) == [(s, [])]
  {
  }

  lemma RunCons(g: Grouping, c: (string, string), cs: seq<(string, string)>)
    ensures Run(g, [c] + cs) == Run(GroupStep(g, c.0, c.1), cs)
  {
    assert ([c] + cs)[1..] == cs;
  }

  /** Three pieces that make up `u` followed by `x`: when the last is
      empty the middle one ends with `x`, and otherwise all of the middle
      one lies in `u`. */
  lemma CutBeforeLast<T>(u: seq<T>, x: T, a: seq<T>, b: seq<T>, c: seq<T>)
    requires a + b + c == u + [x] && b != []
    ensures |a| <= |u| && a == u[..|a|]
    ensures c == [] ==> b == u[|a|..] + [x]
    ensures c != [] ==> |a| + |b| <= |u| && b == u[|a|..|a| + |b|] && c == u[|a| + |b|..] + [x]
  {
    var z := u + [x];
    var k := |a| + |b|;
    assert z[..|a|] == a;
    if c == [] {
      assert z[|a|..] == b;
    } else {
      assert z[|a|..k] == b && z[k..] == c;
    }
  }

  lemma ThreeSlices<T>(u: seq<T>, i: int, k: int)
    requires 0 <= i <= k <= |u|
    ensures u[..i] + u[i..k] + u[k..] == u
  {
  }

  /** Where the split of a plain text closed by `"` cuts it: the first
      word is the rest of the text with the `"` when nothing follows it,
      and otherwise a piece of the text, the rest then ending in `"`. */
  lemma QuoteCut(u: string)
    requires Plain(u)
    ensures var r := SplitOff(u + "\"");
      && r.1 != [] && |r.0| <= |u| && r.0 == u[..|r.0|]
      && (r.2 == [] ==> r.1 == u[|r.0|..] + "\"")
      && (r.2 != [] ==> |r.0| + |r.1| <= |u| && r.1 == u[|r.0|..|r.0| + |r.1|] && r.2 == u[|r.0| + |r.1|..] + "\"")
  {
    var z := u + "\"";
    var r := SplitOff(z);
    assert r.1 != [] by {
      SplitOffShape(z);
      assert !IsSpace(z[|z| - 1]);
    }
    CutBeforeLast(u, '"', r.0, r.1, r.2);
  }

  /** Inside quotes, a text that runs up to a closing `"` with no other
      `"` and no backslash before it joins the current argument whole,
      whitespace included, and the argument is finished after it. */
  lemma {:induction false} QuotedRun(g: Grouping, u: string)
    requires g.quoted && Plain(u)
    ensures Run(g, Chunks(u + "\"")) == Grouping(g.done + [g.cur + u + "\""], [], false)
    decreases |u|
  {
    var z := u + "\"";
    var r := SplitOff(z);
    var ws, w, tail := r.0, r.1, r.2;
    QuoteCut(u);
    ChunksCons(z);
    RunCons(g, (ws, w), Chunks(tail));
    var g1 := GroupStep(g, ws, w);
    assert g1.done == g.done && g1.cur == g.cur + ws + w;
    if tail == [] {
      var w' := u[|ws|..];
      PlainSlice(u, |ws|, |u|);
      ToggledClose(w', true);
      assert !g1.quoted;
      assert Chunks(tail) == [([], [])];
      RunCons(g1, ([], []), []);
      assert ws + w == u + "\"" by {
        assert ws + w' == u;
        ConcatAssoc(ws, w', "\"");
      }
      ConcatAssoc(g.cur, ws, w);
      ConcatAssoc(g.cur, u, "\"");
    } else {
      var k := |ws| + |w|;
      var v := u[k..];
      PlainSlice(u, |ws|, k);
      ToggledNoQuote(w, true, false);
      assert g1.quoted;
      PlainSlice(u, k, |u|);
      QuotedRun(g1, v);
      ThreeSlices(u, |ws|, k);
      assert g1.cur == g.cur + (ws + w) by { ConcatAssoc(g.cur, ws, w); }
      ConcatAssoc(g.cur, ws + w, v);
    }
  }

  /** A word without backslashes whose only `"` is its last character
      flips the quoting once. */
  lemma {:induction false} ToggledClose(w: string, quoted: bool)
    requires Plain(w)
    ensures Toggled(w + "\"", quoted, false) == !quoted
    decreases |w|
  {
    if w == [] {
      assert [] + "\"" == "\"";
    } else {
      assert (w + "\"")[1..] == w[1..] + "\"";
      assert forall c :: c in w[1..] ==> c in w;
      ToggledClose(w[1..], quoted);
    }
  }

  /** A cut of `x`, `t`, `x` after a non-empty first piece: the first
      piece is `x` and a prefix of `t`, and the rest of `t` and the last
      `x` follow. */
  lemma CutInside<T>(x: T, t: seq<T>, w: seq<T>, tail: seq<T>)
    requires w + tail == [x] + t + [x] && w != []
    ensures tail == [] ==> w == [x] + t + [x] && w[1..] == t + [x]
    ensures tail != [] ==> 1 <= |w| <= |t| + 1 && w == [x] + t[..|w| - 1] && tail == t[|w| - 1..] + [x]
  {
    var q := [x] + t + [x];
    var k := |w| - 1;
    assert q[..|w|] == w && q[|w|..] == tail;
    if tail != [] {
      assert q[..|w|] == [x] + t[..k];
      assert q[|w|..] == t[k..] + [x];
    } else {
      assert q[1..] == t + [x];
    }
  }

  /** Outside quotes, whitespace then a `"`-span with no other `"` and no
      backslash inside makes one argument of the whole span. */
  lemma QuotedSpanRun(g: Grouping, ws: string, t: string)
    requires !g.quoted && AllSpace(ws) && Plain(t)
    ensures Run(g, Chunks(ws + ("\"" + t + "\""))) == Grouping(g.done + [g.cur, "\"" + t + "\""], [], false)
  {
    var q := "\"" + t + "\"";
    var z := ws + q;
    var r := SplitOff(z);
    var w, tail := r.1, r.2;
    SplitQuoted(ws, q);
    CutInside('"', t, w, tail);
    ChunksCons(z);
    RunCons(g, (ws, w), Chunks(tail));
    var g1 := GroupStep(g, ws, w);
    assert g1.done == g.done + [g.cur] && g1.cur == w;
    assert Toggled(w, false, false) == Toggled(w[1..], true, false);
    var after := Run(g1, Chunks(tail));
    assert Run(g, Chunks(z)) == after;
    if tail == [] {
      ToggledClose(t, true);
      assert Chunks(tail) == [([], [])];
      RunCons(g1, ([], []), []);
      assert after == Grouping(g1.done + [q], [], false);
    } else {
      var k := |w| - 1;
      PlainSlice(t, 0, k);
      ToggledNoQuote(t[..k], true, false);
      PlainSlice(t, k, |t|);
      QuotedRun(g1, t[k..]);
      ConcatAssoc(w, t[k..], "\"");
      assert after == Grouping(g1.done + [q], [], false);
    }
    assert after == Grouping(g.done + [g.cur] + [q], [], false);
    SnocSnoc(g.done, g.cur, q);
    assert Run(g, Chunks(z)) == Grouping(g.done + [g.cur, q], [], false);
  }

  /** `SplitOff` of whitespace then a text starting with `"` takes that
      whitespace as separator. */
  lemma {:induction false} SplitQuoted(ws: string, q: string)
    requires AllSpace(ws) && q != [] && q[0] == '"'
    ensures var r := SplitOff(ws + q);
      r.0 == ws && r.1 + r.2 == q && r.1 != [] && r.1[0] == '"'
    decreases |ws|
  {
    var z := ws + q;
    if ws == [] {
      assert z == q && !IsSpace(z[0]);
      assert WordRest(q).0[0] == '"';
    } else {
      assert z[0] == ws[0] && z[1..] == ws[1..] + q;
      SplitQuoted(ws[1..], q);
      assert [ws[0]] + ws[1..] == ws;
    }
  }

  /** Whether the grouping of `p` ends outside any `"`-span. */
  predicate EndsUnquoted(p: string)
  {
    !Group(Chunks(p)).quoted
  }

  /** A finished argument then the empty current one. */
  lemma NonEmptyClosing(xs: seq<string>, q: string)
    requires q != []
    ensures NonEmpty(xs + [[]]) == NonEmpty(xs)
    ensures NonEmpty(xs + [q] + [[]]) == NonEmpty(xs) + [q]
  {
    assert (xs + [[]])[..|xs|] == xs;
    assert (xs + [q] + [[]])[..|xs| + 1] == xs + [q];
    assert (xs + [q])[..|xs|] == xs;
  }

  /** The arguments of `p` are those of its pairs before the last, and
      when the quoting of `p` ends closed it is closed before its
      trailing whitespace too. */
  lemma FrontArgs(p: string)
    requires EndsUnquoted(p)
    ensures var g := Group(Front(p));
      !g.quoted && QArgs(p) == NonEmpty(g.done + [g.cur])
  {
    var cs := Chunks(p);
    var g := Group(Front(p));
    assert Front(p) == cs[..|cs| - 1];
    assert Group(cs) == GroupStep(g, Trailing(p), []);
    NonEmptyClosing(g.done + [g.cur], "\"");
  }

  /** `qsplit` keeps a double-quoted span in one argument: after text whose
      quoting is closed, a space and a `"`-span with no other `"` and no
      backslash inside add the whole span, whitespace included, as one
      more argument. */
  lemma QuotedSpanOneArg(p: string, t: string)
    requires EndsUnquoted(p) && Plain(t)
    ensures QArgs(p + " \"" + t + "\"") == QArgs(p) + ["\"" + t + "\""]
  {
    var q := "\"" + t + "\"";
    var x := " " + q;
    var e := Trailing(p);
    var g := Group(Front(p));
    var xs := g.done + [g.cur];
    FrontArgs(p);
    ChunksAppend(p, x);
    TrailingShape(p);
    SpaceSnoc(e);
    var G := Group(Chunks(p + x));
    assert G == Grouping(g.done + [g.cur, q], [], false) by {
      GroupRun(Front(p));
      GroupRun(Chunks(p + x));
      RunAppend(Grouping([], [], false), Front(p), Chunks(e + x));
      ConcatAssoc(e, " ", q);
      QuotedSpanRun(g, e + " ", t);
    }
    SpanAssoc(p, ' ', '"', t);
    PairSnoc(g.done, g.cur, q, []);
    NonEmptyClosing(xs, q);
  }

  lemma SpaceSnoc(e: string)
    requires AllSpace(e)
    ensures AllSpace(e + " ")
  {
  }

  /** The trailing whitespace is whitespace. */
  lemma TrailingShape(p: string)
    ensures AllSpace(Trailing(p))
  {
    FrontTrailing(p);
    ChunksShape(p, |Chunks(p)| - 1);
  }

  /** The text after a prefix, a space and a `"`-span, grouped as the
      space then the span. */
  lemma SpanAssoc<T>(p: seq<T>, sp: T, qu: T, t: seq<T>)
    ensures p + [sp, qu] + t + [qu] == p + ([sp] + ([qu] + t + [qu]))
  {
  }

  lemma SnocSnoc<T>(a: seq<T>, b: T, c: T)
    ensures a + [b] + [c] == a + [b, c]
  {
  }

  lemma PairSnoc<T>(a: seq<T>, b: T, c: T, d: T)
    ensures a + [b, c] + [d] == a + [b] + [c] + [d]
  {
  }

  /** A whole line that is one quoted span is one argument. */
  lemma QuotedLine(t: string)
    requires Plain(t)
    ensures QArgs(" \"" + t + "\"") == ["\"" + t + "\""]
  {
    ChunksNil("");
    var cs := Chunks("");
    assert cs[..0] == [];
    var one: seq<string> := [[]];
    assert Group(cs) == Grouping(one, [], false);
    assert one[..0] == [];
    assert QArgs("") == [] by {
      NonEmptyClosing(one, "\"");
    }
    QuotedSpanOneArg("", t);
    assert "" + " \"" == " \"";
  }

  // ---------------------------------------------------------------------
  // parseCmd
  // ---------------------------------------------------------------------

  /** What a token of `parseCmd` is, checked in the order `>>`, `>`, `2>>`,
      `2>`, `<`. */
  datatype TokenKind = AppendStdout | ToStdout | AppendStderr | ToStderr | FromStdin | Arg

  /** The operator a token of each kind starts with. */
  function Op(k: TokenKind): string
  {
    match k
    case AppendStdout => ">>"
    case ToStdout => ">"
    case AppendStderr => "2>>"
    case ToStderr => "2>"
    case FromStdin => "<"
    case Arg => ""
  }

  /** The kind of a token: the token starts with its operator, the longer
      of `>>`/`>` and of `2>>`/`2>` wins, and a plain argument starts with
      none of `>`, `2>` and `<`. */
  function Kind(a: string): (k: TokenKind)
    ensures IsPrefix(Op(k), a)
    ensures k == ToStdout ==> !IsPrefix(">>", a)
    ensures k == ToStderr ==> !IsPrefix("2>>", a)
    ensures k == Arg <==> !IsPrefix(">", a) && !IsPrefix("2>", a) && !IsPrefix("<", a)
  {
    if |a| >= 1 && a[0] == '>' then
      if |a| >= 2 && a[1] == '>' then AppendStdout else ToStdout
    else if |a| >= 2 && a[0] == '2' && a[1] == '>' then
      if |a| >= 3 && a[2] == '>' then AppendStderr else ToStderr
    else if |a| >= 1 && a[0] == '<' then FromStdin
    else Arg
  }

  /** The stream name after the redirection operator. */
  function TargetOf(a: string): (t: string)
    ensures Op(Kind(a)) + t == a
  {
    a[|Op(Kind(a))|..]
  }

  /** Opened streams are identified by number. */
  type Stream = nat

  datatype Streams = Streams(stdin: Stream, stdout: Stream, stderr: Stream)

  function Redirected(io: Streams, k: TokenKind, f: Stream): Streams
  {
    match k
    case AppendStdout => io.(stdout := f)
    case ToStdout => io.(stdout := f)
    case AppendStderr => io.(stderr := f)
    case ToStderr => io.(stderr := f)
    case FromStdin => io.(stdin := f)
    case Arg => io
  }

  /** The effect of the token loop of `parseCmd`: arguments, streams,
      the streams opens (to be closed), and whether an opening failed. */
  datatype Redirection = Redirection(argv: seq<string>, io: Streams, opens: seq<Stream>, failed: bool)

  /** `open(kind, name)` is the stream factory's answer; None means it
      raised. */
  function Redirect(tokens: seq<string>, io0: Streams, open: (TokenKind, string) -> Option<Stream>): (r: Redirection)
  {
    if tokens == [] then Redirection([], io0, [], false)
    else
      var r := Redirect(tokens[..|tokens| - 1], io0, open);
      var a := tokens[|tokens| - 1];
      if r.failed then r
      else if Kind(a) == Arg then r.(argv := r.argv + [a])
      else match open(Kind(a), TargetOf(a))
        case None => r.(failed := true)
        case Some(f) => Redirection(r.argv, Redirected(r.io, Kind(a), f), r.opens + [f], false)
  }

  /** The tokens that are plain arguments, in order. */
  function PlainArgs(tokens: seq<string>): (r: seq<string>)
    ensures forall i :: 0 <= i < |r| ==> Kind(r[i]) == Arg
  {
    if tokens == [] then []
    else PlainArgs(tokens[..|tokens| - 1]) + (if Kind(tokens[|tokens| - 1]) == Arg then [tokens[|tokens| - 1]] else [])
  }

  /** The tokens that redirect, in order. */
  function RedirectTokens(tokens: seq<string>): (r: seq<string>)
    ensures forall i :: 0 <= i < |r| ==> Kind(r[i]) != Arg
  {
    if tokens == [] then []
    else RedirectTokens(tokens[..|tokens| - 1]) + (if Kind(tokens[|tokens| - 1]) != Arg then [tokens[|tokens| - 1]] else [])
  }

  /** When no opening fails, the arguments are the plain tokens in their
      order and one stream is opens per redirection token. */
  lemma {:induction false} RedirectSucceeds(tokens: seq<string>, io0: Streams, open: (TokenKind, string) -> Option<Stream>)
    requires !Redirect(tokens, io0, open).failed
    ensures Redirect(tokens, io0, open).argv == PlainArgs(tokens)
    ensures |Redirect(tokens, io0, open).opens| == |RedirectTokens(tokens)|
    ensures forall i :: 0 <= i < |RedirectTokens(tokens)| ==>
      open(Kind(RedirectTokens(tokens)[i]), TargetOf(RedirectTokens(tokens)[i])) == Some(Redirect(tokens, io0, open).opens[i])
  {
    if tokens != [] {
      RedirectSucceeds(tokens[..|tokens| - 1], io0, open);
    }
  }

  /** Without redirection tokens the default streams are kept. */
  lemma {:induction false} NoRedirectKeepsDefaults(tokens: seq<string>, io0: Streams, open: (TokenKind, string) -> Option<Stream>)
    requires RedirectTokens(tokens) == []
    ensures Redirect(tokens, io0, open) == Redirection(PlainArgs(tokens), io0, [], false)
  {
    if tokens != [] {
      var front := tokens[..|tokens| - 1];
      NoRedirectKeepsDefaults(front, io0, open);
    }
  }

  /** The command `parseCmd` hands on. */
  datatype Command = Command(argv: seq<string>, io: Streams, close: set<Stream>)

  /** The token loop of `parseCmd`: it stops at the first opening that
      raises. */
  method RedirectAll(tokens: seq<string>, io0: Streams, open: (TokenKind, string) -> Option<Stream>)
    returns (r: Redirection)
    ensures r == Redirect(tokens, io0, open)
  {
    var io := io0;
    var argv: seq<string> := [];
    var opens: seq<Stream> := [];
    var i := 0;
    while i < |tokens|
      invariant 0 <= i <= |tokens|
      invariant Redirect(tokens[..i], io0, open) == Redirection(argv, io, opens, false)
    {
      var a := tokens[i];
      assert tokens[..i + 1][..i] == tokens[..i];
      var k := Kind(a);
      if k == Arg {
        argv := argv + [a];
      } else {
        var f := open(k, TargetOf(a));
        if f.None? {
          RedirectStopsAtFailure(tokens, i + 1, io0, open);
          return Redirection(argv, io, opens, true);
        }
        io := Redirected(io, k, f.value);
        opens := opens + [f.value];
      }
      i := i + 1;
    }
    assert tokens[..i] == tokens;
    return Redirection(argv, io, opens, false);
  }

  /** `parseCmd(ctx, cmdline, defaults)`: the arguments are the plain
      tokens; the streams opened by redirections and by the pipe are all
      closed when any opening raises, and the error is passed on (here:
      the set of streams closed). */
  method ParseCmd(cmdline: string, io0: Streams, open: (TokenKind, string) -> Option<Stream>,
                  popen: string -> Option<Stream>)
    returns (r: Result<Command, set<Stream>>)
    ensures var tokens := QArgs(PipeSplitSpec(cmdline).0);
      var red := Redirect(tokens, io0, open);
      var pipe := PipeSplitSpec(cmdline).1;
      && (r.Err? <==> red.failed || (pipe.Some? && popen(pipe.value).None?))
      && (r.Err? ==> r.error == SetOf(red.opens))
      && (r.Ok? ==> r.value.argv == PlainArgs(tokens))
      && (r.Ok? && pipe.None? ==> r.value == Command(red.argv, red.io, SetOf(red.opens)))
      && (r.Ok? && pipe.Some? ==>
            r.value == Command(red.argv, red.io.(stdout := popen(pipe.value).value), SetOf(red.opens) + {popen(pipe.value).value}))
  {
    var cmd, pipeto := PipeSplit(cmdline);
    var tokens := QSplit(cmd);
    var red := RedirectAll(tokens, io0, open);
    if red.failed {
      return Err(SetOf(red.opens));
    }
    RedirectSucceeds(tokens, io0, open);
    var io, close := red.io, SetOf(red.opens);
    if pipeto.Some? {
      var p := popen(pipeto.value);
      if p.None? {
        return Err(close);
      }
      io, close := io.(stdout := p.value), close + {p.value};
    }
    return Ok(Command(red.argv, io, close));
  }

  function SetOf(s: seq<Stream>): set<Stream>
  {
    set x | x in s
  }

  /** Once a prefix fails, the whole token list fails with the same
      opens streams. */
  lemma {:induction false} RedirectStopsAtFailure(tokens: seq<string>, n: nat, io0: Streams, open: (TokenKind, string) -> Option<Stream>)
    requires n <= |tokens| && Redirect(tokens[..n], io0, open).failed
    ensures Redirect(tokens, io0, open) == Redirect(tokens[..n], io0, open)
    decreases |tokens| - n
  {
    if n < |tokens| {
      assert tokens[..n + 1][..n] == tokens[..n];
      RedirectStopsAtFailure(tokens, n + 1, io0, open);
    } else {
      assert tokens[..n] == tokens;
    }
  }

  // ---------------------------------------------------------------------
  // ShellCommand.run
  // ---------------------------------------------------------------------

  /** The argument check of `ShellCommand.run`: `args` is what `getopt`
      left after the options (None when `getopt` raised). The command runs
      on its arguments exactly when their number lies within
      `[minarg, maxarg]`; otherwise the usage is printed and None returned. */
  function RunArgs(args: Option<seq<string>>, minarg: int, maxarg: int): (r: Option<seq<string>>)
    ensures r.Some? <==> args.Some? && minarg <= |args.value| <= maxarg
    ensures r.Some? ==> r == args
  {
    if args.None? || |args.value| < minarg || |args.value| > maxarg then None else args
  }
}
