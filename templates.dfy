/** The page-template elements of `peak/web/templates.py`: the parameter
    registry of an element, the coalescing of static child text, the tag
    strings, the rendering order of `List`, and the choice `URLTag` makes. */
module Templates {
  import opened Base

  // ---------------------------------------------------------------------
  // Children and their optimisation
  // ---------------------------------------------------------------------

  /** A child node as its parent sees it: an identity and its static text,
      none for a dynamic node. */
  datatype Child = Child(id: nat, text: Option<string>)

  /** An optimised child: a literal holding a run of static texts, or a
      dynamic child kept as it is. */
  datatype Piece = Literal(xml: string) | Kept(child: Child)

  /** The pending texts of `flush()`, as one literal when there are any. */
  function Flush(texts: seq<string>): seq<Piece>
  {
    if texts == [] then [] else [Literal(Flatten(texts))]
  }

  /** The children `optimizedChildren` gives for `cs`, with `texts` already
      waiting to be flushed. */
  function Coalesce(cs: seq<Child>, texts: seq<string>): seq<Piece>
    decreases |cs|
  {
    if cs == [] then Flush(texts)
    else if cs[0].text.None? then Flush(texts) + [Kept(cs[0])] + Coalesce(cs[1..], [])
    else Coalesce(cs[1..], texts + [cs[0].text.value])
  }

  /** `optimizedChildren` as a value; `OptimizeFacts` states what it
      keeps. */
  function Optimize(cs: seq<Child>): seq<Piece>
  {
    Coalesce(cs, [])
  }

  /** The optimised children stand for the children, and no two of their
      literals are side by side. */
  lemma OptimizeFacts(cs: seq<Child>)
    ensures ExpandPieces(Optimize(cs)) == Expand(cs)
    ensures Maximal(Optimize(cs))
  {
    CoalesceExpands(cs, []);
    CoalesceMaximal(cs, []);
    EmptyChars();
  }

  /** `optimizedChildren`: the loop with its flushing buffer. */
  method OptimizeChildren(cs: seq<Child>) returns (all: seq<Piece>)
    ensures all == Optimize(cs)
  {
    all := [];
    var texts: seq<string> := [];
    var i := 0;
    while i < |cs|
      invariant i <= |cs|
      invariant Optimize(cs) == all + Coalesce(cs[i..], texts)
      decreases |cs| - i
    {
      assert cs[i..][0] == cs[i] && cs[i..][1..] == cs[i + 1..];
      CoalesceUnfold(cs[i..], texts);
      var t := cs[i].text;
      if t.None? {
        ConcatAssoc(all, Flush(texts) + [Kept(cs[i])], Coalesce(cs[i + 1..], []));
        all := all + (Flush(texts) + [Kept(cs[i])]);
        texts := [];
      } else {
        texts := texts + [t.value];
      }
      i := i + 1;
    }
    assert cs[i..] == [];
    all := all + Flush(texts);
  }

  /** A token of what a sequence of children stands for: a character of
      static text, or a dynamic child. */
  datatype Token = Ch(c: char) | Dyn(child: Child)

  function Chars(s: string): seq<Token>
  {
    if s == [] then [] else [Ch(s[0])] + Chars(s[1..])
  }

  lemma {:induction false} CharsAppend(a: string, b: string)
    ensures Chars(a + b) == Chars(a) + Chars(b)
    decreases |a|
  {
    if a != [] {
      assert (a + b)[0] == a[0] && (a + b)[1..] == a[1..] + b;
      CharsAppend(a[1..], b);
    } else {
      assert a + b == b;
    }
  }

  /** What the children stand for, token by token. */
  function Expand(cs: seq<Child>): seq<Token>
    decreases |cs|
  {
    if cs == [] then []
    else (if cs[0].text.None? then [Dyn(cs[0])] else Chars(cs[0].text.value)) + Expand(cs[1..])
  }

  /** What the optimised children stand for, token by token. */
  function ExpandPieces(ps: seq<Piece>): seq<Token>
    decreases |ps|
  {
    if ps == [] then []
    else (if ps[0].Literal? then Chars(ps[0].xml) else [Dyn(ps[0].child)]) + ExpandPieces(ps[1..])
  }

  lemma {:induction false} ExpandPiecesAppend(a: seq<Piece>, b: seq<Piece>)
    ensures ExpandPieces(a + b) == ExpandPieces(a) + ExpandPieces(b)
    decreases |a|
  {
    if a != [] {
      assert (a + b)[0] == a[0] && (a + b)[1..] == a[1..] + b;
      ExpandPiecesAppend(a[1..], b);
    } else {
      assert a + b == b;
    }
  }

  lemma FlattenSnoc(texts: seq<string>, t: string)
    ensures Flatten(texts + [t]) == Flatten(texts) + t
  {
    assert (texts + [t])[..|texts|] == texts;
  }

  /** No two literals are next to each other. */
  predicate Maximal(ps: seq<Piece>)
  {
    forall i :: 0 <= i < |ps| - 1 ==> !(ps[i].Literal? && ps[i + 1].Literal?)
  }

  /** Coalescing keeps what the children stand for: the same characters of
      static text and the same dynamic children, in the same order. */
  lemma {:induction false} CoalesceExpands(cs: seq<Child>, texts: seq<string>)
    ensures ExpandPieces(Coalesce(cs, texts)) == Chars(Flatten(texts)) + Expand(cs)
    decreases |cs|
  {
    if cs == [] {
      FlushExpands(texts);
    } else if cs[0].text.None? {
      CoalesceExpands(cs[1..], []);
      DynamicStep(cs, texts);
    } else {
      CoalesceExpands(cs[1..], texts + [cs[0].text.value]);
      StaticStep(cs, texts);
    }
  }

  lemma {:induction false} DynamicStep(cs: seq<Child>, texts: seq<string>)
    requires cs != [] && cs[0].text.None?
    requires ExpandPieces(Coalesce(cs[1..], [])) == Chars(Flatten([])) + Expand(cs[1..])
    ensures ExpandPieces(Coalesce(cs, texts)) == Chars(Flatten(texts)) + Expand(cs)
  {
    var k := Kept(cs[0]);
    var rest := Coalesce(cs[1..], []);
    var e := Expand(cs[1..]);
    var f := Flush(texts);
    var a := Chars(Flatten(texts));
    assert Coalesce(cs, texts) == f + [k] + rest && Expand(cs) == [Dyn(cs[0])] + e by {
      CoalesceUnfold(cs, texts);
    }
    assert ExpandPieces(f + [k]) == a + [Dyn(cs[0])] by {
      ExpandPiecesAppend(f, [k]);
      FlushExpands(texts);
      KeptExpands(cs[0]);
    }
    assert ExpandPieces(rest) == e by {
      EmptyChars();
    }
    ExpandPiecesAppend(f + [k], rest);
    ConcatAssoc(a, [Dyn(cs[0])], e);
  }

  /** One step of `Coalesce`. */
  lemma {:induction false} CoalesceUnfold(cs: seq<Child>, texts: seq<string>)
    requires cs != []
    ensures cs[0].text.None? ==> Coalesce(cs, texts) == Flush(texts) + [Kept(cs[0])] + Coalesce(cs[1..], [])
    ensures cs[0].text.Some? ==> Coalesce(cs, texts) == Coalesce(cs[1..], texts + [cs[0].text.value])
    ensures Expand(cs) == (if cs[0].text.None? then [Dyn(cs[0])] else Chars(cs[0].text.value)) + Expand(cs[1..])
  {
  }

  lemma KeptExpands(c: Child)
    ensures ExpandPieces([Kept(c)]) == [Dyn(c)]
  {
    assert ExpandPieces([Kept(c)]) == [Dyn(c)] + ExpandPieces([]);
  }

  lemma EmptyChars()
    ensures Chars(Flatten<char>([])) == []
  {
  }

  lemma {:induction false} StaticStep(cs: seq<Child>, texts: seq<string>)
    requires cs != [] && cs[0].text.Some?
    requires ExpandPieces(Coalesce(cs[1..], texts + [cs[0].text.value])) == Chars(Flatten(texts + [cs[0].text.value])) + Expand(cs[1..])
    ensures ExpandPieces(Coalesce(cs, texts)) == Chars(Flatten(texts)) + Expand(cs)
  {
    var t := cs[0].text.value;
    CoalesceUnfold(cs, texts);
    SnocChars(texts, t);
    ConcatAssoc(Chars(Flatten(texts)), Chars(t), Expand(cs[1..]));
  }

  lemma {:induction false} SnocChars(texts: seq<string>, t: string)
    ensures Chars(Flatten(texts + [t])) == Chars(Flatten(texts)) + Chars(t)
  {
    FlattenSnoc(texts, t);
    CharsAppend(Flatten(texts), t);
  }

  /** The characters of a text are no dynamic child. */
  lemma {:induction false} CharsNoDyn(s: string, c: Child)
    ensures Dyn(c) !in Chars(s)
    decreases |s|
  {
    if s != [] {
      CharsNoDyn(s[1..], c);
      assert Chars(s) == [Ch(s[0])] + Chars(s[1..]);
    }
  }

  lemma FlushExpands(texts: seq<string>)
    ensures ExpandPieces(Flush(texts)) == Chars(Flatten(texts))
  {
    if texts != [] {
      assert ExpandPieces([Literal(Flatten(texts))]) == Chars(Flatten(texts)) + ExpandPieces([]);
    }
  }

  /** Coalescing leaves no two literals side by side, so every run of
      static children becomes a single literal. */
  lemma {:induction false} CoalesceMaximal(cs: seq<Child>, texts: seq<string>)
    ensures Maximal(Coalesce(cs, texts))
    ensures texts != [] ==> Coalesce(cs, texts) != [] && Coalesce(cs, texts)[0].Literal?
    ensures texts == [] && cs != [] && cs[0].text.None? ==> Coalesce(cs, texts)[0] == Kept(cs[0])
    decreases |cs|
  {
    if cs != [] {
      if cs[0].text.None? {
        CoalesceMaximal(cs[1..], []);
        var rest := Coalesce(cs[1..], []);
        var ps := Flush(texts) + [Kept(cs[0])] + rest;
        forall i | 0 <= i < |ps| - 1
          ensures !(ps[i].Literal? && ps[i + 1].Literal?)
        {
          if i >= |Flush(texts)| + 1 {
            assert ps[i] == rest[i - |Flush(texts)| - 1] && ps[i + 1] == rest[i - |Flush(texts)|];
          }
        }
      } else {
        CoalesceMaximal(cs[1..], texts + [cs[0].text.value]);
      }
    }
  }

  /** The children kept by the optimisation are exactly the dynamic ones. */
  lemma {:induction false} CoalesceKeptDynamic(cs: seq<Child>, texts: seq<string>)
    ensures forall i :: 0 <= i < |Coalesce(cs, texts)| && Coalesce(cs, texts)[i].Kept? ==>
      Coalesce(cs, texts)[i].child in cs && Coalesce(cs, texts)[i].child.text.None?
    decreases |cs|
  {
    if cs != [] {
      CoalesceKeptDynamic(cs[1..], if cs[0].text.None? then [] else texts + [cs[0].text.value]);
      var rest := Coalesce(cs[1..], if cs[0].text.None? then [] else texts + [cs[0].text.value]);
      assert forall x :: x in cs[1..] ==> x in cs;
      if cs[0].text.None? {
        var ps := Flush(texts) + [Kept(cs[0])] + rest;
        forall i | 0 <= i < |ps| && ps[i].Kept?
          ensures ps[i].child in cs && ps[i].child.text.None?
        {
          if i > |Flush(texts)| {
            assert ps[i] == rest[i - |Flush(texts)| - 1];
          }
        }
      }
    }
  }

  /** With every child static, the optimised children are one literal of
      all their texts (none when there are no children). */
  lemma {:induction false} CoalesceAllStatic(cs: seq<Child>, texts: seq<string>)
    requires forall i :: 0 <= i < |cs| ==> cs[i].text.Some?
    ensures Coalesce(cs, texts) == Flush(texts + StaticTexts(cs))
    decreases |cs|
  {
    if cs == [] {
      assert texts + StaticTexts(cs) == texts;
    } else {
      CoalesceAllStatic(cs[1..], texts + [cs[0].text.value]);
      assert texts + StaticTexts(cs) == texts + [cs[0].text.value] + StaticTexts(cs[1..]);
    }
  }

  /** The static texts of children that all have one. */
  function StaticTexts(cs: seq<Child>): (r: seq<string>)
    requires forall i :: 0 <= i < |cs| ==> cs[i].text.Some?
    ensures |r| == |cs| && forall i :: 0 <= i < |cs| ==> r[i] == cs[i].text.value
    decreases |cs|
  {
    if cs == [] then [] else [cs[0].text.value] + StaticTexts(cs[1..])
  }

  // ---------------------------------------------------------------------
  // Tag strings
  // ---------------------------------------------------------------------

  /** The escaping `xml.sax.saxutils.quoteattr` applies to a character:
      `&`, `<`, `>` and the newline, return and tab characters. */
  function EscapeChar(c: char): string
  {
    if c == '&' then "&amp;"
    else if c == '<' then "&lt;"
    else if c == '>' then "&gt;"
    else if c == '\n' then "&#10;"
    else if c == '\r' then "&#13;"
    else if c == '\t' then "&#9;"
    else [c]
  }

  function Escape(s: string): (r: string)
    ensures |r| >= |s|
    ensures forall i :: 0 <= i < |r| ==> r[i] !in {'<', '>', '\n', '\r', '\t'}
    decreases |s|
  {
    if s == [] then [] else EscapeChar(s[0]) + Escape(s[1..])
  }

  /** Every double quote replaced by `&quot;`. */
  function QuoteEntities(s: string): (r: string)
    ensures '"' !in r
    ensures '\'' in r <==> '\'' in s
    decreases |s|
  {
    if s == [] then [] else (if s[0] == '"' then "&quot;" else [s[0]]) + QuoteEntities(s[1..])
  }

  /** `quoteattr(v)`: the escaped value between double quotes, or between
      single quotes when it holds a double quote but no single one, or
      with its double quotes turned into entities when it holds both. */
  function QuoteAttr(v: string): string
  {
    var d := Escape(v);
    if '"' in d then
      if '\'' in d then "\"" + QuoteEntities(d) + "\"" else "'" + d + "'"
    else "\"" + d + "\""
  }

  /** A quoted value is its delimiter, a body free of that delimiter, and
      the delimiter again; it is `"` unless the value needs `'`. */
  lemma QuoteAttrDelimited(v: string)
    ensures var r := QuoteAttr(v);
      |r| >= 2 && r[0] == r[|r| - 1] && r[0] !in r[1..|r| - 1]
      && (r[0] == '"' || r[0] == '\'')
      && (r[0] == '\'' <==> '"' in Escape(v) && '\'' !in Escape(v))
  {
    var d := Escape(v);
    var r := QuoteAttr(v);
    if '"' in d && '\'' in d {
      assert r[1..|r| - 1] == QuoteEntities(d);
    } else {
      assert r[1..|r| - 1] == d;
    }
  }

  /** The attribute part of an open tag: ` k="v"` for each pair, in order. */
  function AttrText(attrs: seq<(string, string)>): string
    decreases |attrs|
  {
    if attrs == [] then [] else " " + attrs[0].0 + "=" + QuoteAttr(attrs[0].1) + AttrText(attrs[1..])
  }

  /** Attribute text is built pair by pair, in order. */
  lemma {:induction false} AttrTextAppend(a: seq<(string, string)>, b: seq<(string, string)>)
    ensures AttrText(a + b) == AttrText(a) + AttrText(b)
    decreases |a|
  {
    if a != [] {
      assert (a + b)[0] == a[0] && (a + b)[1..] == a[1..] + b;
      AttrTextAppend(a[1..], b);
    } else {
      assert a + b == b;
    }
  }

  /** `_openTag`. */
  function OpenTag(tag: string, attrs: seq<(string, string)>): (r: string)
    ensures tag == "" <==> r == ""
    ensures tag != "" ==> |r| >= 1 && r[|r| - 1] == '>'
  {
    if tag == "" then "" else "<" + tag + AttrText(attrs) + ">"
  }

  /** `_closeTag`. */
  function CloseTag(tag: string): (r: string)
    ensures tag == "" <==> r == ""
  {
    if tag == "" then "" else "</" + tag + ">"
  }

  /** `_emptyTag`: the open tag with its final `>` replaced by ` />`. */
  function EmptyTag(tag: string, attrs: seq<(string, string)>): (r: string)
    ensures tag == "" <==> r == ""
  {
    if tag == "" then "" else var o := OpenTag(tag, attrs); o[..|o| - 1] + " />"
  }

  /** The three tag strings of a named element. */
  lemma TagShapes(tag: string, attrs: seq<(string, string)>)
    requires tag != ""
    ensures OpenTag(tag, attrs) == "<" + tag + AttrText(attrs) + ">"
    ensures EmptyTag(tag, attrs) == "<" + tag + AttrText(attrs) + " />"
    ensures CloseTag(tag) == "</" + tag + ">"
  {
    var body := "<" + tag + AttrText(attrs);
    assert OpenTag(tag, attrs) == body + ">";
    assert (body + ">")[..|body|] == body;
  }

  // ---------------------------------------------------------------------
  // Static text
  // ---------------------------------------------------------------------

  function PieceText(p: Piece): Option<string>
  {
    if p.Literal? then Some(p.xml) else p.child.text
  }

  /** `staticText` of an element whose optimised children are `ps`. */
  function StaticTextOf(tag: string, attrs: seq<(string, string)>, nonEmpty: bool, ps: seq<Piece>): Option<string>
  {
    if exists i :: 0 <= i < |ps| && PieceText(ps[i]).None? then None
    else if ps != [] || nonEmpty then Some(OpenTag(tag, attrs) + PiecesText(ps) + CloseTag(tag))
    else Some(EmptyTag(tag, attrs))
  }

  function PiecesText(ps: seq<Piece>): string
    decreases |ps|
  {
    if ps == [] then [] else (if PieceText(ps[0]).Some? then PieceText(ps[0]).value else []) + PiecesText(ps[1..])
  }

  /** An element has no static text exactly when one of its children is
      dynamic. */
  lemma StaticTextDynamic(tag: string, attrs: seq<(string, string)>, nonEmpty: bool, cs: seq<Child>)
    ensures StaticTextOf(tag, attrs, nonEmpty, Optimize(cs)).None? <==> exists i :: 0 <= i < |cs| && cs[i].text.None?
  {
    var ps := Optimize(cs);
    if exists i :: 0 <= i < |cs| && cs[i].text.None? {
      var i :| 0 <= i < |cs| && cs[i].text.None?;
      CoalesceExpands(cs, []);
      ExpandHasDyn(cs, i);
      var j := PieceOfDyn(ps, cs[i]);
      assert PieceText(ps[j]).None?;
    } else {
      CoalesceAllStatic(cs, []);
      assert [] + StaticTexts(cs) == StaticTexts(cs);
    }
  }

  /** With every child static, the static text is the open tag, the child
      texts in order and the close tag, or the empty tag for an element
      with no children that need not be written out in full. */
  lemma StaticTextJoined(tag: string, attrs: seq<(string, string)>, nonEmpty: bool, cs: seq<Child>)
    requires forall i :: 0 <= i < |cs| ==> cs[i].text.Some?
    ensures StaticTextOf(tag, attrs, nonEmpty, Optimize(cs)) ==
      if cs != [] || nonEmpty then Some(OpenTag(tag, attrs) + Flatten(StaticTexts(cs)) + CloseTag(tag))
      else Some(EmptyTag(tag, attrs))
  {
    CoalesceAllStatic(cs, []);
    assert [] + StaticTexts(cs) == StaticTexts(cs);
    if cs != [] {
      LiteralText(tag, attrs, nonEmpty, Flatten(StaticTexts(cs)));
    } else {
      assert Optimize(cs) == [];
    }
  }

  lemma LiteralText(tag: string, attrs: seq<(string, string)>, nonEmpty: bool, x: string)
    ensures StaticTextOf(tag, attrs, nonEmpty, [Literal(x)]) == Some(OpenTag(tag, attrs) + x + CloseTag(tag))
  {
    var ps := [Literal(x)];
    assert ps[1..] == [];
    assert PiecesText(ps) == x + PiecesText([]);
    assert PiecesText([]) == [] && x + [] == x;
    assert !exists i :: 0 <= i < |ps| && PieceText(ps[i]).None?;
  }

  lemma {:induction false} ExpandHasDyn(cs: seq<Child>, i: nat)
    requires i < |cs| && cs[i].text.None?
    ensures Dyn(cs[i]) in Expand(cs)
    decreases |cs|
  {
    if i > 0 {
      ExpandHasDyn(cs[1..], i - 1);
    }
  }

  lemma {:induction false} PieceOfDyn(ps: seq<Piece>, c: Child) returns (j: nat)
    requires Dyn(c) in ExpandPieces(ps)
    ensures j < |ps| && ps[j] == Kept(c)
    decreases |ps|
  {
    var head := if ps[0].Literal? then Chars(ps[0].xml) else [Dyn(ps[0].child)];
    assert ExpandPieces(ps) == head + ExpandPieces(ps[1..]);
    if ps[0].Literal? {
      CharsNoDyn(ps[0].xml, c);
    }
    if Dyn(c) in head {
      j := 0;
    } else {
      j := PieceOfDyn(ps[1..], c);
      j := j + 1;
    }
  }

  // ---------------------------------------------------------------------
  // Parameters
  // ---------------------------------------------------------------------

  /** A registered parameter: one element, or a list for a multi-valued
      parameter. */
  datatype Param = Single(element: nat) | Multi(elements: seq<nat>)

  datatype AddResult = ToParent | Added | Unrecognized(name: string) | Redefined(name: string)

  function IsMulti(accept: seq<string>, multi: seq<string>, name: string): bool
  {
    name in multi || (name !in accept && "*" in multi)
  }

  /** Every registered parameter has the form its multiplicity calls for. */
  predicate ParamsWellFormed(params: map<string, Param>, accept: seq<string>, multi: seq<string>)
  {
    forall n :: n in params ==> (params[n].Multi? <==> IsMulti(accept, multi, n))
  }

  /** `addParameter(name, element)`, as the outcome and the new registry. */
  function AddParam(params: map<string, Param>, accept: seq<string>, multi: seq<string>, name: string, element: nat): (r: (AddResult, map<string, Param>))
    requires ParamsWellFormed(params, accept, multi)
    ensures ParamsWellFormed(r.1, accept, multi)
    ensures r.0 != Added ==> r.1 == params
  {
    if accept == [] then (ToParent, params)
    else if name !in accept && "*" !in accept then (Unrecognized(name), params)
    else
      var isMulti := IsMulti(accept, multi, name);
      if name in params then
        if !isMulti then (Redefined(name), params)
        else (Added, params[name := Multi(params[name].elements + [element])])
      else if isMulti then (Added, params[name := Multi([element])])
      else (Added, params[name := Single(element)])
  }

  /** Registering `name` for each element in turn. */
  function AddAll(params: map<string, Param>, accept: seq<string>, multi: seq<string>, name: string, elements: seq<nat>): (r: (seq<AddResult>, map<string, Param>))
    requires ParamsWellFormed(params, accept, multi)
    ensures ParamsWellFormed(r.1, accept, multi)
    decreases |elements|
  {
    if elements == [] then ([], params)
    else
      var (o, p) := AddParam(params, accept, multi, name, elements[0]);
      var (os, q) := AddAll(p, accept, multi, name, elements[1..]);
      ([o] + os, q)
  }

  /** An element that accepts no parameters hands every one to its parent;
      a name it does not accept, when it accepts no `*`, is an error. */
  lemma AddParamRejects(params: map<string, Param>, accept: seq<string>, multi: seq<string>, name: string, element: nat)
    requires ParamsWellFormed(params, accept, multi)
    ensures accept == [] ==> AddParam(params, accept, multi, name, element) == (ToParent, params)
    ensures accept != [] && name !in accept && "*" !in accept ==>
      AddParam(params, accept, multi, name, element) == (Unrecognized(name), params)
  {
  }

  /** A multi-valued parameter collects its elements in call order. */
  lemma {:induction false} MultiAccumulates(params: map<string, Param>, accept: seq<string>, multi: seq<string>, name: string, elements: seq<nat>)
    requires ParamsWellFormed(params, accept, multi)
    requires accept != [] && (name in accept || "*" in accept) && IsMulti(accept, multi, name)
    ensures var os := AddAll(params, accept, multi, name, elements).0;
      |os| == |elements| && forall i :: 0 <= i < |os| ==> os[i] == Added
    ensures elements != [] ==>
      var p := AddAll(params, accept, multi, name, elements).1;
      name in p && p[name] == Multi((if name in params then params[name].elements else []) + elements)
      && forall n :: n != name ==> (n in p <==> n in params) && (n in p ==> p[n] == params[n])
    decreases |elements|
  {
    if elements != [] {
      var p := AddParam(params, accept, multi, name, elements[0]).1;
      var before := if name in params then params[name].elements else [];
      assert p[name] == Multi(before + [elements[0]]);
      MultiAccumulates(p, accept, multi, name, elements[1..]);
      if elements[1..] != [] {
        assert before + [elements[0]] + elements[1..] == before + elements;
      } else {
        assert before + [elements[0]] == before + elements;
      }
    }
  }

  /** A single-valued parameter can be defined once: a second definition
      is an error that leaves the registry as it was. */
  lemma SingleOnce(params: map<string, Param>, accept: seq<string>, multi: seq<string>, name: string, e1: nat, e2: nat)
    requires ParamsWellFormed(params, accept, multi)
    requires accept != [] && (name in accept || "*" in accept) && !IsMulti(accept, multi, name) && name !in params
    ensures AddParam(params, accept, multi, name, e1) == (Added, params[name := Single(e1)])
    ensures var p := AddParam(params, accept, multi, name, e1).1;
      AddParam(p, accept, multi, name, e2) == (Redefined(name), p)
  {
  }

  // ---------------------------------------------------------------------
  // The element
  // ---------------------------------------------------------------------

  datatype ChildError = AddAfterRender

  /** An `Element`: its children, its parameter registry, and the
      optimised children once they have been computed. */
  class Element {
    var children: seq<Child>
    var params: map<string, Param>
    var optimized: Option<seq<Piece>>
    const tagName: string
    const attribItems: seq<(string, string)>
    const nonEmpty: bool
    const acceptParams: seq<string>
    const multiParams: seq<string>

    /** The optimised children, once computed, are those of the children;
        the registry is well formed. */
    predicate Valid()
      reads this
    {
      (optimized.Some? ==> optimized.value == Optimize(children))
      && ParamsWellFormed(params, acceptParams, multiParams)
    }

    constructor (tagName: string, attribItems: seq<(string, string)>, nonEmpty: bool,
                 acceptParams: seq<string>, multiParams: seq<string>)
      ensures Valid()
      ensures this.tagName == tagName && this.attribItems == attribItems && this.nonEmpty == nonEmpty
      ensures this.acceptParams == acceptParams && this.multiParams == multiParams
      ensures children == [] && params == map[] && optimized == None
    {
      this.tagName := tagName;
      this.attribItems := attribItems;
      this.nonEmpty := nonEmpty;
      this.acceptParams := acceptParams;
      this.multiParams := multiParams;
      children := [];
      params := map[];
      optimized := None;
    }

    /** `addChild(node)`: refused once the optimised children exist. */
    method AddChild(node: Child) returns (r: Result<(), ChildError>)
      requires Valid()
      modifies this`children
      ensures Valid()
      ensures optimized.Some? ==> r == Err(AddAfterRender) && children == old(children)
      ensures optimized.None? ==> r == Ok(()) && children == old(children) + [node]
    {
      if optimized.Some? {
        return Err(AddAfterRender);
      }
      children := children + [node];
      return Ok(());
    }

    /** `optimizedChildren`: computed once, then kept. */
    method OptimizedChildren() returns (ps: seq<Piece>)
      requires Valid()
      modifies this`optimized
      ensures Valid()
      ensures ps == Optimize(children) && optimized == Some(ps)
    {
      if optimized.Some? {
        return optimized.value;
      }
      ps := OptimizeChildren(children);
      optimized := Some(ps);
    }

    /** `staticText`, which computes the optimised children. */
    method StaticText() returns (t: Option<string>)
      requires Valid()
      modifies this`optimized
      ensures Valid()
      ensures optimized == Some(Optimize(children))
      ensures t == StaticTextOf(tagName, attribItems, nonEmpty, Optimize(children))
    {
      var ps := OptimizedChildren();
      t := StaticTextOf(tagName, attribItems, nonEmpty, ps);
    }

    /** `addParameter(name, element)`. */
    method AddParameter(name: string, element: nat) returns (r: AddResult)
      requires Valid()
      modifies this`params
      ensures Valid()
      ensures (r, params) == AddParam(old(params), acceptParams, multiParams, name, element)
    {
      var o := AddParam(params, acceptParams, multiParams, name, element);
      params := o.1;
      r := o.0;
    }
  }

  // ---------------------------------------------------------------------
  // List
  // ---------------------------------------------------------------------

  /** What `List.renderFor` writes, in order: the tags, the header, one
      entry per allowed item (the pattern used, the item's index among the
      allowed ones, the item), the empty-list text or the footer. */
  datatype Output = OpenTagOut | HeaderOut(element: nat) | Entry(pattern: nat, index: nat, item: nat)
                  | EmptyOut(element: nat) | FooterOut(element: nat) | CloseTagOut

  datatype ListError = MissingListItem

  /** The items the context allows, in order. */
  function Allowed(items: seq<nat>, allowed: nat -> bool): (r: seq<nat>)
    ensures forall x :: x in r ==> x in items && allowed(x)
    decreases |items|
  {
    if items == [] then []
    else (if allowed(items[0]) then [items[0]] else []) + Allowed(items[1..], allowed)
  }

  /** The entries for allowed items `xs`, numbered from `ct`, with the
      patterns taken round-robin (`infiniter`). */
  function Numbered(xs: seq<nat>, patterns: seq<nat>, ct: nat): (r: seq<Output>)
    requires patterns != []
    ensures |r| == |xs|
    ensures forall k :: 0 <= k < |xs| ==> r[k] == Entry(patterns[(ct + k) % |patterns|], ct + k, xs[k])
    decreases |xs|
  {
    if xs == [] then [] else [Entry(patterns[ct % |patterns|], ct, xs[0])] + Numbered(xs[1..], patterns, ct + 1)
  }

  function ElementOf(params: map<string, Param>, name: string): Option<nat>
  {
    if name in params && params[name].Single? then Some(params[name].element) else None
  }

  /** The loop over the items, with `ct` allowed items already written. */
  function ListBody(items: seq<nat>, allowed: nat -> bool, patterns: seq<nat>, header: Option<nat>, ct: nat): seq<Output>
    requires patterns != []
    decreases |items|
  {
    if items == [] then []
    else if !allowed(items[0]) then ListBody(items[1..], allowed, patterns, header, ct)
    else
      (if ct == 0 && header.Some? then [HeaderOut(header.value)] else [])
      + [Entry(patterns[ct % |patterns|], ct, items[0])]
      + ListBody(items[1..], allowed, patterns, header, ct + 1)
  }

  /** What `List.renderFor` writes for `items`. */
  function ListOutput(items: seq<nat>, allowed: nat -> bool, params: map<string, Param>): Result<seq<Output>, (seq<Output>, ListError)>
  {
    if "listItem" !in params || !params["listItem"].Multi? || params["listItem"].elements == [] then
      Err(([OpenTagOut], MissingListItem))
    else
      var patterns := params["listItem"].elements;
      var n := |Allowed(items, allowed)|;
      var tail := if n == 0 then (if ElementOf(params, "emptyList").Some? then [EmptyOut(ElementOf(params, "emptyList").value)] else [])
                  else (if ElementOf(params, "footer").Some? then [FooterOut(ElementOf(params, "footer").value)] else []);
      Ok([OpenTagOut] + ListBody(items, allowed, patterns, ElementOf(params, "header"), 0) + tail + [CloseTagOut])
  }

  /** `List.renderFor`, with its counting loop. A missing `listItem`
      parameter fails once the open tag is written. */
  method RenderList(items: seq<nat>, allowed: nat -> bool, params: map<string, Param>)
    returns (r: Result<seq<Output>, (seq<Output>, ListError)>)
    ensures r == ListOutput(items, allowed, params)
  {
    var out := [OpenTagOut];
    if "listItem" !in params || !params["listItem"].Multi? || params["listItem"].elements == [] {
      return Err((out, MissingListItem));
    }
    var patterns := params["listItem"].elements;
    var header := ElementOf(params, "header");
    var ct := 0;
    var i := 0;
    while i < |items|
      invariant i <= |items|
      invariant ct == |Allowed(items[..i], allowed)|
      invariant [OpenTagOut] + ListBody(items, allowed, patterns, header, 0) == out + ListBody(items[i..], allowed, patterns, header, ct)
    {
      assert items[i..][0] == items[i] && items[i..][1..] == items[i + 1..];
      AllowedSnoc(items[..i], items[i], allowed);
      assert items[..i + 1] == items[..i] + [items[i]];
      if allowed(items[i]) {
        if ct == 0 && header.Some? {
          out := out + [HeaderOut(header.value)];
        }
        out := out + [Entry(patterns[ct % |patterns|], ct, items[i])];
        ct := ct + 1;
      }
      i := i + 1;
    }
    assert items[..i] == items && items[i..] == [];
    assert ListBody([], allowed, patterns, header, ct) == [];
    assert out == [OpenTagOut] + ListBody(items, allowed, patterns, header, 0);
    var tail: seq<Output> := [];
    if ct == 0 {
      var e := ElementOf(params, "emptyList");
      if e.Some? {
        tail := [EmptyOut(e.value)];
      }
    } else {
      var f := ElementOf(params, "footer");
      if f.Some? {
        tail := [FooterOut(f.value)];
      }
    }
    out := out + tail + [CloseTagOut];
    return Ok(out);
  }

  lemma AllowedSnoc(items: seq<nat>, x: nat, allowed: nat -> bool)
    ensures Allowed(items + [x], allowed) == Allowed(items, allowed) + (if allowed(x) then [x] else [])
    decreases |items|
  {
    if items != [] {
      assert (items + [x])[1..] == items[1..] + [x];
      AllowedSnoc(items[1..], x, allowed);
    } else {
      assert items + [x] == [x];
    }
  }

  function HeaderCount(out: seq<Output>): nat
    decreases |out|
  {
    if out == [] then 0 else (if out[0].HeaderOut? then 1 else 0) + HeaderCount(out[1..])
  }

  function Entries(out: seq<Output>): seq<Output>
    decreases |out|
  {
    if out == [] then [] else (if out[0].Entry? then [out[0]] else []) + Entries(out[1..])
  }

  /** The entries the loop writes are the allowed items, numbered in
      order from `ct`, with the patterns used round-robin. */
  lemma {:induction false} ListBodyEntries(items: seq<nat>, allowed: nat -> bool, patterns: seq<nat>, header: Option<nat>, ct: nat)
    requires patterns != []
    ensures Entries(ListBody(items, allowed, patterns, header, ct)) == Numbered(Allowed(items, allowed), patterns, ct)
    decreases |items|
  {
    if items != [] {
      if allowed(items[0]) {
        ListBodyEntries(items[1..], allowed, patterns, header, ct + 1);
        EntryStep(items, allowed, patterns, header, ct);
      } else {
        ListBodyEntries(items[1..], allowed, patterns, header, ct);
        assert Allowed(items, allowed) == [] + Allowed(items[1..], allowed);
      }
    }
  }

  lemma EntryStep(items: seq<nat>, allowed: nat -> bool, patterns: seq<nat>, header: Option<nat>, ct: nat)
    requires patterns != [] && items != [] && allowed(items[0])
    requires Entries(ListBody(items[1..], allowed, patterns, header, ct + 1)) == Numbered(Allowed(items[1..], allowed), patterns, ct + 1)
    ensures Entries(ListBody(items, allowed, patterns, header, ct)) == Numbered(Allowed(items, allowed), patterns, ct)
  {
    var rest := ListBody(items[1..], allowed, patterns, header, ct + 1);
    var e := Entry(patterns[ct % |patterns|], ct, items[0]);
    var h: seq<Output> := if ct == 0 && header.Some? then [HeaderOut(header.value)] else [];
    EntriesAppend(h + [e], rest);
    EntriesAppend(h, [e]);
    assert Entries([e]) == [e] + Entries([]);
    if h != [] {
      assert Entries(h) == [] + Entries([]);
    }
    var xs := Allowed(items, allowed);
    assert xs == [items[0]] + Allowed(items[1..], allowed);
    assert xs[1..] == Allowed(items[1..], allowed);
  }

  /** The loop writes the header once, and only when it is started with
      nothing written and some item is allowed. */
  lemma {:induction false} ListBodyHeaders(items: seq<nat>, allowed: nat -> bool, patterns: seq<nat>, header: Option<nat>, ct: nat)
    requires patterns != []
    ensures HeaderCount(ListBody(items, allowed, patterns, header, ct)) ==
      if ct == 0 && header.Some? && Allowed(items, allowed) != [] then 1 else 0
    decreases |items|
  {
    if items != [] {
      if allowed(items[0]) {
        ListBodyHeaders(items[1..], allowed, patterns, header, ct + 1);
        HeaderStep(items, allowed, patterns, header, ct);
      } else {
        ListBodyHeaders(items[1..], allowed, patterns, header, ct);
        assert Allowed(items, allowed) == [] + Allowed(items[1..], allowed);
      }
    }
  }

  lemma HeaderStep(items: seq<nat>, allowed: nat -> bool, patterns: seq<nat>, header: Option<nat>, ct: nat)
    requires patterns != [] && items != [] && allowed(items[0])
    requires HeaderCount(ListBody(items[1..], allowed, patterns, header, ct + 1)) == 0
    ensures HeaderCount(ListBody(items, allowed, patterns, header, ct)) == if ct == 0 && header.Some? then 1 else 0
    ensures Allowed(items, allowed) != []
  {
    var rest := ListBody(items[1..], allowed, patterns, header, ct + 1);
    var e := Entry(patterns[ct % |patterns|], ct, items[0]);
    var h: seq<Output> := if ct == 0 && header.Some? then [HeaderOut(header.value)] else [];
    HeaderCountAppend(h + [e], rest);
    HeaderCountAppend(h, [e]);
    assert HeaderCount([e]) == 0 + HeaderCount([]);
    if h != [] {
      assert HeaderCount(h) == 1 + HeaderCount([]);
    }
    assert Allowed(items, allowed) == [items[0]] + Allowed(items[1..], allowed);
  }

  /** Started with nothing written, the loop writes the header first when
      there is one and some item is allowed. */
  lemma {:induction false} ListBodyHeaderFirst(items: seq<nat>, allowed: nat -> bool, patterns: seq<nat>, header: Option<nat>)
    requires patterns != [] && header.Some? && Allowed(items, allowed) != []
    ensures var b := ListBody(items, allowed, patterns, header, 0);
      |b| > 0 && b[0] == HeaderOut(header.value)
    decreases |items|
  {
    if !allowed(items[0]) {
      assert Allowed(items, allowed) == [] + Allowed(items[1..], allowed);
      ListBodyHeaderFirst(items[1..], allowed, patterns, header);
    }
  }

  lemma {:induction false} EntriesAppend(a: seq<Output>, b: seq<Output>)
    ensures Entries(a + b) == Entries(a) + Entries(b)
    decreases |a|
  {
    if a != [] {
      assert (a + b)[0] == a[0] && (a + b)[1..] == a[1..] + b;
      EntriesAppend(a[1..], b);
    } else {
      assert a + b == b;
    }
  }

  lemma {:induction false} HeaderCountAppend(a: seq<Output>, b: seq<Output>)
    ensures HeaderCount(a + b) == HeaderCount(a) + HeaderCount(b)
    decreases |a|
  {
    if a != [] {
      assert (a + b)[0] == a[0] && (a + b)[1..] == a[1..] + b;
      HeaderCountAppend(a[1..], b);
    } else {
      assert a + b == b;
    }
  }

  /** The list ends with the empty-list text exactly when no item is
      allowed and there is one, else with the footer when there is one,
      and then the close tag. */
  lemma ListEnding(items: seq<nat>, allowed: nat -> bool, params: map<string, Param>)
    requires ListOutput(items, allowed, params).Ok?
    ensures var out := ListOutput(items, allowed, params).value;
      var n := |Allowed(items, allowed)|;
      && |out| >= 2 && out[0] == OpenTagOut && out[|out| - 1] == CloseTagOut
      && (n == 0 && ElementOf(params, "emptyList").Some? ==> out[|out| - 2] == EmptyOut(ElementOf(params, "emptyList").value))
      && (n > 0 && ElementOf(params, "footer").Some? ==> out[|out| - 2] == FooterOut(ElementOf(params, "footer").value))
  {
  }

  // ---------------------------------------------------------------------
  // URLTag
  // ---------------------------------------------------------------------

  /** The element `URLTag` builds: URL text with tags, URL text without
      them, or an element with the URL in an attribute. */
  datatype UrlElement = UrlText | TaglessUrlText | UrlAttribute(attribItems: seq<(string, string)>)

  /** `%` doubled, as the attribute values other than the URL's are. */
  function DoublePercent(v: string): string
    decreases |v|
  {
    if v == [] then [] else (if v[0] == '%' then "%%" else [v[0]]) + DoublePercent(v[1..])
  }

  function SwapPlus(s: string): (r: string)
    ensures |r| == |s| && forall i :: 0 <= i < |s| ==> r[i] == if s[i] == '+' then ':' else s[i]
  {
    if s == [] then [] else [if s[0] == '+' then ':' else s[0]] + SwapPlus(s[1..])
  }

  function Keys(attrs: seq<(string, string)>): seq<string>
    ensures |Keys(attrs)| == |attrs| && forall i :: 0 <= i < |attrs| ==> Keys(attrs)[i] == attrs[i].0
  {
    if attrs == [] then [] else [attrs[0].0] + Keys(attrs[1..])
  }

  const UrlSlot: string := "%(url)s"

  /** The attributes with `%` doubled and the named one given the URL. */
  function UrlAttributes(attrs: seq<(string, string)>, name: string): (r: seq<(string, string)>)
    ensures |r| == |attrs|
    ensures forall i :: 0 <= i < |attrs| ==> r[i] == (attrs[i].0, if attrs[i].0 == name then UrlSlot else DoublePercent(attrs[i].1))
    decreases |attrs|
  {
    if attrs == [] then []
    else [(attrs[0].0, if attrs[0].0 == name then UrlSlot else DoublePercent(attrs[0].1))] + UrlAttributes(attrs[1..], name)
  }

  /** The dotted parts of the property, none given counting as `""`. */
  function PropertyParts(prop: Option<string>): (parts: seq<string>)
    ensures |parts| >= 1
  {
    Split(if prop.Some? then prop.value else "", '.')
  }

  /** The attributes of a `URLAttribute` whose URL goes in `name`: replaced
      where the name is present, appended otherwise. */
  function UrlItems(attrs: seq<(string, string)>, name: string): seq<(string, string)>
  {
    if name in Keys(attrs) then UrlAttributes(attrs, name)
    else UrlAttributes(attrs, name) + [(name, UrlSlot)]
  }

  /** `URLTag(domletProperty=prop, attribItems=attrs)`. */
  function UrlTag(prop: Option<string>, attrs: seq<(string, string)>): UrlElement
  {
    var parts := PropertyParts(prop);
    var last := parts[|parts| - 1];
    if |parts| == 1 || last == "text" then UrlText
    else if last == "notag" then TaglessUrlText
    else UrlAttribute(UrlItems(attrs, SwapPlus(last)))
  }

  /** Python's `%` formatting with the one key `url`: `%%` gives `%` and
      `%(url)s` gives the URL. */
  function Format(s: string, url: string): (r: string)
    ensures '%' !in s ==> r == s
    decreases |s|
  {
    if |s| >= 2 && s[..2] == "%%" then "%" + Format(s[2..], url)
    else if |s| >= 7 && s[..7] == UrlSlot then url + Format(s[7..], url)
    else if s == [] then []
    else assert [s[0]] + s[1..] == s; [s[0]] + Format(s[1..], url)
  }

  /** Formatting undoes the doubling: every other attribute value comes
      out as it was given. */
  lemma {:induction false} FormatDoubled(v: string, url: string)
    ensures Format(DoublePercent(v), url) == v
    decreases |v|
  {
    if v != [] {
      var d := DoublePercent(v);
      FormatDoubled(v[1..], url);
      if v[0] == '%' {
        assert d[..2] == "%%" && d[2..] == DoublePercent(v[1..]);
        assert v == "%" + v[1..];
      } else {
        assert d[0] == v[0] && d[1..] == DoublePercent(v[1..]);
        assert !(|d| >= 2 && d[..2] == "%%") by { if |d| >= 2 { assert d[..2][0] == v[0]; } }
        assert !(|d| >= 7 && d[..7] == UrlSlot) by { if |d| >= 7 { assert d[..7][0] == v[0]; } }
        assert v == [v[0]] + v[1..];
      }
    }
  }

  lemma FormatSlot(url: string)
    ensures Format(UrlSlot, url) == url
  {
    assert UrlSlot[..2] != "%%" by { assert UrlSlot[1] == '('; }
    assert UrlSlot[..7] == UrlSlot && UrlSlot[7..] == [];
  }

  /** Once formatted, the attribute named `name` holds the URL and every
      other attribute its value as given. */
  lemma UrlAttributesFormat(attrs: seq<(string, string)>, name: string, url: string)
    ensures var r := UrlAttributes(attrs, name);
      forall i :: 0 <= i < |attrs| ==> Format(r[i].1, url) == if attrs[i].0 == name then url else attrs[i].1
  {
    var r := UrlAttributes(attrs, name);
    forall i | 0 <= i < |attrs|
      ensures Format(r[i].1, url) == if attrs[i].0 == name then url else attrs[i].1
    {
      if attrs[i].0 == name {
        FormatSlot(url);
      } else {
        FormatDoubled(attrs[i].1, url);
      }
    }
  }

  /** The URL goes in the attribute `name`, replaced where present and
      appended otherwise, while every other attribute keeps its name, its
      place and, once formatted, its value. */
  lemma UrlItemsPlace(attrs: seq<(string, string)>, name: string, url: string)
    ensures var r := UrlItems(attrs, name);
      && |r| == |attrs| + (if name in Keys(attrs) then 0 else 1)
      && (exists j :: 0 <= j < |r| && r[j] == (name, UrlSlot))
      && (forall i :: 0 <= i < |attrs| ==> r[i].0 == attrs[i].0)
      && (forall i :: 0 <= i < |attrs| ==>
           Format(r[i].1, url) == if attrs[i].0 == name then url else attrs[i].1)
  {
    var u := UrlAttributes(attrs, name);
    UrlAttributesFormat(attrs, name, url);
    if name in Keys(attrs) {
      var j :| 0 <= j < |attrs| && Keys(attrs)[j] == name;
      assert u[j] == (name, UrlSlot);
    } else {
      var r := u + [(name, UrlSlot)];
      assert r[|attrs|] == (name, UrlSlot);
      assert forall i :: 0 <= i < |attrs| ==> r[i] == u[i];
    }
  }

  /** A property of one part, or ending in `text`, gives URL text; one
      ending in `notag` gives it without tags; any other last part names
      the attribute (with `+` for `:`) that receives the URL. */
  lemma UrlTagChoice(prop: Option<string>, attrs: seq<(string, string)>, url: string)
    ensures var parts := PropertyParts(prop);
      var last := parts[|parts| - 1];
      && (UrlTag(prop, attrs) == UrlText <==> |parts| == 1 || last == "text")
      && (UrlTag(prop, attrs) == TaglessUrlText <==> |parts| > 1 && last == "notag")
      && (UrlTag(prop, attrs).UrlAttribute? <==> |parts| > 1 && last != "text" && last != "notag")
      && (UrlTag(prop, attrs).UrlAttribute? ==> UrlTag(prop, attrs).attribItems == UrlItems(attrs, SwapPlus(last)))
  {
  }
}
