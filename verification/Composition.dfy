/**
 * Composed-secret templates: `${NAME}` refers to another secret, `$$` is a
 * dollar sign, everything else is literal. Rendering is one pass.
 */
module Composition {
  import opened Prelude

  const MAX_RENDERED_BYTES: nat := 16 * 1024 * 1024

  datatype Part = Literal(text: string) | Reference(name: string)

  datatype Template = Template(parts: seq<Part>, dependencies: seq<string>)

  datatype ParseError = NestedBrace | Unclosed | InvalidName(name: string) | NoReferences

  predicate NameChar(c: char) {
    'A' <= c <= 'Z' || '0' <= c <= '9' || c == '_'
  }

  predicate IsValidReferenceName(name: string) {
    name != "" && 'A' <= name[0] <= 'Z' && forall i | 1 <= i < |name| :: NameChar(name[i])
  }

  const UPPERCASE := "ABCDEFGHIJKLMNOPQRSTUVWXYZ"
  const OTHER_NAME_CHARS := "0123456789_"

  /** An uppercase letter first, then letters, digits and underscores. */
  lemma ValidNamesExactly(name: string)
    ensures IsValidReferenceName(name) <==>
              && name != "" && name[0] in UPPERCASE
              && forall i | 0 <= i < |name| :: name[i] in UPPERCASE || name[i] in OTHER_NAME_CHARS
  {
    forall i | 0 <= i < |name|
      ensures name[i] in UPPERCASE <==> 'A' <= name[i] <= 'Z'
      ensures name[i] in OTHER_NAME_CHARS <==> '0' <= name[i] <= '9' || name[i] == '_'
    {
      UppercaseListed(name[i]);
      OthersListed(name[i]);
    }
  }

  lemma UppercaseListed(c: char)
    ensures c in UPPERCASE <==> 'A' <= c <= 'Z'
  {
    assert 'A' <= c <= 'Z' ==> UPPERCASE[c as int - 'A' as int] == c;
  }

  lemma OthersListed(c: char)
    ensures c in OTHER_NAME_CHARS <==> '0' <= c <= '9' || c == '_'
  {
    assert '0' <= c <= '9' ==> OTHER_NAME_CHARS[c as int - '0' as int] == c;
    assert OTHER_NAME_CHARS[10] == '_';
  }

  // ---------------------------------------------------------------- what a text denotes

  /** A template read one character at a time, before literals are gathered. */
  datatype Piece = Char(c: char) | Ref(name: string)

  type Reading = Result<seq<Piece>, ParseError>

  function Prepend(done: seq<Piece>, rest: Reading): Reading {
    if rest.Ok? then Ok(done + rest.value) else rest
  }

  /** The text up to the closing brace, and what follows it. */
  function ReadName(s: string): (r: Result<(string, string), ParseError>)
    ensures r.Ok? ==> |r.value.1| < |s|
  {
    if s == "" then Err(Unclosed)
    else if s[0] == '}' then Ok(("", s[1..]))
    else if s[0] == '{' then Err(NestedBrace)
    else
      var r := ReadName(s[1..]);
      if r.Ok? then Ok(([s[0]] + r.value.0, r.value.1)) else r
  }

  function Pieces(s: string): Reading
    decreases |s|
  {
    if s == "" then Ok([])
    else if "$$" <= s then Prepend([Char('$')], Pieces(s[2..]))
    else if "${" <= s then
      var r := ReadName(s[2..]);
      if r.Err? then Err(r.error)
      else if !IsValidReferenceName(r.value.0) then Err(InvalidName(r.value.0))
      else Prepend([Ref(r.value.0)], Pieces(r.value.1))
    else Prepend([Char(s[0])], Pieces(s[1..]))
  }

  function Chars(text: string): seq<Piece> {
    seq(|text|, i requires 0 <= i < |text| => Char(text[i]))
  }

  function Flatten(parts: seq<Part>): seq<Piece> {
    if parts == [] then []
    else
      var last := parts[|parts| - 1];
      Flatten(parts[..|parts| - 1]) + if last.Literal? then Chars(last.text) else [Ref(last.name)]
  }

  /** Gather runs of characters into literals. */
  function Group(ps: seq<Piece>): seq<Part> {
    if ps == [] then []
    else
      var before, last := Group(ps[..|ps| - 1]), ps[|ps| - 1];
      if last.Ref? then before + [Reference(last.name)] else PushChar(before, last.c)
  }

  function PushChar(parts: seq<Part>, c: char): seq<Part> {
    if parts != [] && parts[|parts| - 1].Literal?
    then parts[..|parts| - 1] + [Literal(parts[|parts| - 1].text + [c])]
    else parts + [Literal([c])]
  }

  function Names(ps: seq<Piece>): seq<string> {
    if ps == [] then []
    else
      var before, last := Names(ps[..|ps| - 1]), ps[|ps| - 1];
      if last.Ref? then InsertName(before, last.name) else before
  }

  function Parse(input: string): Result<Template, ParseError> {
    var ps := Pieces(input);
    if ps.Err? then Err(ps.error)
    else if Names(ps.value) == [] then Err(NoReferences)
    else Ok(Template(Group(ps.value), Names(ps.value)))
  }

  // ---------------------------------------------------------------- the parser

  lemma {:induction false} PrependTwice(a: seq<Piece>, b: seq<Piece>, r: Reading)
    ensures Prepend(a, Prepend(b, r)) == Prepend(a + b, r)
  {
    if r.Ok? {
      assert a + (b + r.value) == a + b + r.value;
    }
  }

  lemma EscapeReads(tail: string)
    ensures Pieces("$$" + tail) == Prepend([Char('$')], Pieces(tail))
  {
    assert ("$$" + tail)[2..] == tail;
  }

  /** A character stands for itself unless it is a dollar sign that opens an escape or a reference. */
  lemma PlainReads(c: char, tail: string)
    requires c == '$' && tail != "" ==> tail[0] != '$' && tail[0] != '{'
    ensures Pieces([c] + tail) == Prepend([Char(c)], Pieces(tail))
  {
    var s := [c] + tail;
    assert s[0] == c && s[1..] == tail && (tail != "" ==> s[1] == tail[0]);
  }

  /** The parts with the literal under construction, unless that is empty. */
  function Pending(parts: seq<Part>, literal: string): seq<Part> {
    if literal == "" then parts else parts + [Literal(literal)]
  }

  lemma PendingPush(parts: seq<Part>, literal: string, c: char)
    requires parts != [] ==> parts[|parts| - 1].Reference?
    ensures PushChar(Pending(parts, literal), c) == Pending(parts, literal + [c])
  {
    if literal != "" {
      assert (parts + [Literal(literal)])[..|parts|] == parts;
    } else {
      assert literal + [c] == [c];
    }
  }

  lemma GroupSnoc(ps: seq<Piece>, p: Piece)
    ensures Group(ps + [p]) == if p.Ref? then Group(ps) + [Reference(p.name)] else PushChar(Group(ps), p.c)
    ensures Names(ps + [p]) == if p.Ref? then InsertName(Names(ps), p.name) else Names(ps)
  {
    assert (ps + [p])[..|ps|] == ps;
  }

  /** Read a reference name starting at `i`; the index after the closing brace on success. */
  method ParseName(input: string, i: nat) returns (name: string, next: nat, error: Option<ParseError>)
    requires i <= |input|
    ensures error.None? ==> i < next <= |input| && ReadName(input[i..]) == Ok((name, input[next..]))
    ensures error.Some? ==> ReadName(input[i..]) == Err(error.value)
  {
    name, next := "", i;
    assert ReadName(input[i..]).Ok? ==> "" + ReadName(input[i..]).value.0 == ReadName(input[i..]).value.0;
    while true
      invariant i <= next <= |input| && name == input[i..next]
      invariant ReadName(input[i..]) ==
                var r := ReadName(input[next..]);
                if r.Ok? then Ok((name + r.value.0, r.value.1)) else r
      decreases |input| - next
    {
      if next == |input| {
        return name, next, Some(Unclosed);
      }
      var c := input[next];
      assert input[next..][1..] == input[next + 1..];
      if c == '}' {
        assert name + "" == name;
        return name, next + 1, None;
      }
      if c == '{' {
        return name, next, Some(NestedBrace);
      }
      ghost var r := ReadName(input[next + 1..]);
      if r.Ok? {
        assert name + ([c] + r.value.0) == name + [c] + r.value.0;
      }
      name := name + [c];
      next := next + 1;
    }
  }

  /** Part of the input is read as `done`, gathered into parts, a literal under construction and names. */
  ghost predicate Midway(
    input: string, i: nat, done: seq<Piece>, parts: seq<Part>, literal: string, dependencies: seq<string>)
  {
    && i <= |input|
    && Pieces(input) == Prepend(done, Pieces(input[i..]))
    && Group(done) == Pending(parts, literal)
    && (parts != [] ==> parts[|parts| - 1].Reference?)
    && dependencies == Names(done)
  }

  lemma MidwayStarts(input: string)
    ensures Midway(input, 0, [], [], "", [])
  {
    assert input[0..] == input;
    assert Pieces(input).Ok? ==> [] + Pieces(input).value == Pieces(input).value;
  }

  lemma GathersChar(done: seq<Piece>, parts: seq<Part>, literal: string, c: char)
    requires Group(done) == Pending(parts, literal) && (parts != [] ==> parts[|parts| - 1].Reference?)
    ensures Group(done + [Char(c)]) == Pending(parts, literal + [c]) && Names(done + [Char(c)]) == Names(done)
  {
    GroupSnoc(done, Char(c));
    PendingPush(parts, literal, c);
  }

  lemma TakesEscape(
    input: string, i: nat, done: seq<Piece>, parts: seq<Part>, literal: string, dependencies: seq<string>)
    requires Midway(input, i, done, parts, literal, dependencies)
    requires i + 1 < |input| && input[i] == '$' && input[i + 1] == '$'
    ensures Midway(input, i + 2, done + [Char('$')], parts, literal + ['$'], dependencies)
  {
    var tail := input[i + 2..];
    assert input[i..] == "$$" + tail;
    EscapeReads(tail);
    PrependTwice(done, [Char('$')], Pieces(tail));
    GathersChar(done, parts, literal, '$');
  }

  lemma TakesChar(
    input: string, i: nat, done: seq<Piece>, parts: seq<Part>, literal: string, dependencies: seq<string>)
    requires Midway(input, i, done, parts, literal, dependencies) && i < |input|
    requires input[i] == '$' && i + 1 < |input| ==> input[i + 1] != '$' && input[i + 1] != '{'
    ensures Midway(input, i + 1, done + [Char(input[i])], parts, literal + [input[i]], dependencies)
  {
    var c, tail := input[i], input[i + 1..];
    assert input[i..] == [c] + tail && (tail != "" ==> tail[0] == input[i + 1]);
    PlainReads(c, tail);
    PrependTwice(done, [Char(c)], Pieces(tail));
    GathersChar(done, parts, literal, c);
  }

  lemma ReadsReference(input: string, i: nat, done: seq<Piece>)
    requires i + 1 < |input| && input[i] == '$' && input[i + 1] == '{'
    ensures var r := ReadName(input[i + 2..]);
            Prepend(done, Pieces(input[i..])) ==
            if r.Err? then Err(r.error)
            else if !IsValidReferenceName(r.value.0) then Err(InvalidName(r.value.0))
            else Prepend(done + [Ref(r.value.0)], Pieces(r.value.1))
  {
    var s := input[i..];
    assert s[1] == '{' && "${" <= s && s[2..] == input[i + 2..];
    var r := ReadName(input[i + 2..]);
    if r.Ok? {
      PrependTwice(done, [Ref(r.value.0)], Pieces(r.value.1));
    }
  }

  lemma TakesReference(
    input: string, i: nat, done: seq<Piece>, parts: seq<Part>, literal: string, dependencies: seq<string>,
    name: string, next: nat)
    requires Midway(input, i, done, parts, literal, dependencies)
    requires i + 1 < |input| && input[i] == '$' && input[i + 1] == '{'
    requires next <= |input| && ReadName(input[i + 2..]) == Ok((name, input[next..])) && IsValidReferenceName(name)
    ensures Midway(input, next, done + [Ref(name)], Pending(parts, literal) + [Reference(name)], "",
                   InsertName(dependencies, name))
  {
    ReadsReference(input, i, done);
    GroupSnoc(done, Ref(name));
  }

  lemma MidwayEnds(input: string, done: seq<Piece>, parts: seq<Part>, literal: string, dependencies: seq<string>)
    requires Midway(input, |input|, done, parts, literal, dependencies)
    ensures Parse(input) ==
            if dependencies == [] then Err(NoReferences) else Ok(Template(Pending(parts, literal), dependencies))
  {
    assert input[|input|..] == "" && done + [] == done;
  }

  /** One left-to-right pass, gathering a literal until a reference ends it. */
  method ParseTemplate(input: string) returns (result: Result<Template, ParseError>)
    ensures result == Parse(input)
  {
    var parts: seq<Part> := [];
    var literal := "";
    var dependencies: seq<string> := [];
    ghost var done: seq<Piece> := [];
    var i := 0;
    MidwayStarts(input);
    while i < |input|
      invariant 0 <= i && Midway(input, i, done, parts, literal, dependencies)
      decreases |input| - i
    {
      var ch := input[i];
      if ch == '$' && i + 1 < |input| && input[i + 1] == '$' {
        TakesEscape(input, i, done, parts, literal, dependencies);
        literal, done := literal + ['$'], done + [Char('$')];
        i := i + 2;
      } else if ch == '$' && i + 1 < |input| && input[i + 1] == '{' {
        var name, next, error := ParseName(input, i + 2);
        ReadsReference(input, i, done);
        if error.Some? {
          return Err(error.value);
        }
        if !IsValidReferenceName(name) {
          return Err(InvalidName(name));
        }
        TakesReference(input, i, done, parts, literal, dependencies, name, next);
        parts := Pending(parts, literal) + [Reference(name)];
        literal := "";
        dependencies := InsertName(dependencies, name);
        done := done + [Ref(name)];
        i := next;
      } else {
        TakesChar(input, i, done, parts, literal, dependencies);
        literal, done := literal + [ch], done + [Char(ch)];
        i := i + 1;
      }
    }
    MidwayEnds(input, done, parts, literal, dependencies);
    if dependencies == [] {
      return Err(NoReferences);
    }
    result := Ok(Template(Pending(parts, literal), dependencies));
  }

  // ---------------------------------------------------------------- canonical form

  predicate CanonicalParts(parts: seq<Part>) {
    && (forall i | 0 <= i < |parts| :: parts[i].Literal? ==> parts[i].text != "")
    && (forall i | 0 <= i < |parts| - 1 :: !(parts[i].Literal? && parts[i + 1].Literal?))
    && (forall i | 0 <= i < |parts| :: parts[i].Reference? ==> IsValidReferenceName(parts[i].name))
  }

  /** No empty or adjacent literals; the dependencies are the referenced names in order, and there is one. */
  ghost predicate Canonical(t: Template) {
    && CanonicalParts(t.parts)
    && Ascending(t.dependencies) && t.dependencies != []
    && (forall n :: n in t.dependencies <==> Reference(n) in t.parts)
  }

  predicate ValidRefs(ps: seq<Piece>) {
    forall i | 0 <= i < |ps| :: ps[i].Ref? ==> IsValidReferenceName(ps[i].name)
  }

  lemma {:induction false} PiecesValid(s: string)
    ensures Pieces(s).Ok? ==> ValidRefs(Pieces(s).value)
    decreases |s|
  {
    if s == "" {
    } else if "$$" <= s {
      PiecesValid(s[2..]);
    } else if "${" <= s {
      var r := ReadName(s[2..]);
      if r.Ok? {
        PiecesValid(r.value.1);
      }
    } else {
      PiecesValid(s[1..]);
    }
  }

  lemma PushCharCanonical(parts: seq<Part>, c: char)
    requires CanonicalParts(parts)
    ensures CanonicalParts(PushChar(parts, c))
    ensures forall n :: Reference(n) in PushChar(parts, c) <==> Reference(n) in parts
  {
    var m := |parts| - 1;
    if parts != [] && parts[m].Literal? {
      assert parts == parts[..m] + [parts[m]];
    }
  }

  lemma {:induction false} GroupCanonical(ps: seq<Piece>)
    requires ValidRefs(ps)
    ensures CanonicalParts(Group(ps))
    ensures forall n :: Reference(n) in Group(ps) <==> Ref(n) in ps
    decreases |ps|
  {
    if ps != [] {
      var n := |ps| - 1;
      GroupCanonical(ps[..n]);
      assert ps == ps[..n] + [ps[n]];
      if ps[n].Char? {
        PushCharCanonical(Group(ps[..n]), ps[n].c);
      }
    }
  }

  lemma {:induction false} NamesSound(ps: seq<Piece>)
    ensures Ascending(Names(ps))
    ensures forall n :: n in Names(ps) <==> Ref(n) in ps
    decreases |ps|
  {
    if ps != [] {
      var n := |ps| - 1;
      NamesSound(ps[..n]);
      assert ps == ps[..n] + [ps[n]];
      if ps[n].Ref? {
        InsertNameAscending(Names(ps[..n]), ps[n].name);
      }
    }
  }

  lemma ParsedIsCanonical(input: string)
    requires Parse(input).Ok?
    ensures Canonical(Parse(input).value)
  {
    PiecesValid(input);
    var ps := Pieces(input).value;
    GroupCanonical(ps);
    NamesSound(ps);
  }

  // ---------------------------------------------------------------- printing

  function EscapeChar(c: char): string {
    if c == '$' then "$$" else [c]
  }

  function Escape(text: string): string {
    if text == "" then "" else EscapeChar(text[0]) + Escape(text[1..])
  }

  function PrintPart(p: Part): string {
    if p.Literal? then Escape(p.text) else "${" + p.name + "}"
  }

  function PrintParts(parts: seq<Part>): string {
    if parts == [] then "" else PrintPart(parts[0]) + PrintParts(parts[1..])
  }

  lemma EscapedCharReads(c: char, tail: string)
    ensures Pieces(EscapeChar(c) + tail) == Prepend([Char(c)], Pieces(tail))
  {
    if c == '$' {
      EscapeReads(tail);
    } else {
      PlainReads(c, tail);
    }
  }

  lemma {:induction false} EscapedReads(text: string, rest: string)
    ensures Pieces(Escape(text) + rest) == Prepend(Chars(text), Pieces(rest))
  {
    if text == "" {
      assert Escape(text) + rest == rest;
      if Pieces(rest).Ok? {
        assert Chars(text) + Pieces(rest).value == Pieces(rest).value;
      }
    } else {
      var c, cs, tail := text[0], Chars(text[1..]), Escape(text[1..]) + rest;
      calc {
        Pieces(Escape(text) + rest);
        { assert Escape(text) + rest == EscapeChar(c) + tail; }
        Pieces(EscapeChar(c) + tail);
        { EscapedCharReads(c, tail); }
        Prepend([Char(c)], Pieces(tail));
        { EscapedReads(text[1..], rest); }
        Prepend([Char(c)], Prepend(cs, Pieces(rest)));
        { PrependTwice([Char(c)], cs, Pieces(rest)); }
        Prepend([Char(c)] + cs, Pieces(rest));
        { assert Chars(text) == [Char(c)] + cs; }
        Prepend(Chars(text), Pieces(rest));
      }
    }
  }

  lemma {:induction false} NameReads(name: string, rest: string)
    requires forall i | 0 <= i < |name| :: name[i] != '{' && name[i] != '}'
    ensures ReadName(name + "}" + rest) == Ok((name, rest))
  {
    var s := name + "}" + rest;
    if name == "" {
      assert s[1..] == rest;
    } else {
      assert s[1..] == name[1..] + "}" + rest;
      NameReads(name[1..], rest);
      assert [name[0]] + name[1..] == name;
    }
  }

  lemma ReferenceReads(name: string, rest: string)
    requires IsValidReferenceName(name)
    ensures Pieces("${" + name + "}" + rest) == Prepend([Ref(name)], Pieces(rest))
  {
    var s, tail := "${" + name + "}" + rest, name + "}" + rest;
    assert s == "${" + tail && s[2..] == tail && s[1] == '{';
    NameReads(name, rest);
  }

  lemma PartReads(p: Part, rest: string)
    requires p.Reference? ==> IsValidReferenceName(p.name)
    ensures Pieces(PrintPart(p) + rest) == Prepend(Flatten([p]), Pieces(rest))
  {
    assert [p][..0] == [];
    if p.Literal? {
      EscapedReads(p.text, rest);
      assert Flatten([p]) == Chars(p.text);
    } else {
      ReferenceReads(p.name, rest);
      assert Flatten([p]) == [Ref(p.name)];
    }
  }

  lemma FlattenSnoc(parts: seq<Part>, p: Part)
    ensures Flatten(parts + [p]) == Flatten(parts) + Flatten([p])
  {
    assert (parts + [p])[..|parts|] == parts && [p][..0] == [];
    assert Flatten([p]) == [] + if p.Literal? then Chars(p.text) else [Ref(p.name)];
  }

  lemma {:induction false} FlattenCons(p: Part, parts: seq<Part>)
    ensures Flatten([p] + parts) == Flatten([p]) + Flatten(parts)
    decreases |parts|
  {
    if parts == [] {
      assert [p] + parts == [p] && Flatten([p]) + [] == Flatten([p]);
    } else {
      var rest, last := parts[..|parts| - 1], parts[|parts| - 1];
      calc {
        Flatten([p] + parts);
        { assert [p] + parts == ([p] + rest) + [last]; FlattenSnoc([p] + rest, last); }
        Flatten([p] + rest) + Flatten([last]);
        { FlattenCons(p, rest); }
        Flatten([p]) + Flatten(rest) + Flatten([last]);
        Flatten([p]) + (Flatten(rest) + Flatten([last]));
        { assert parts == rest + [last]; FlattenSnoc(rest, last); }
        Flatten([p]) + Flatten(parts);
      }
    }
  }

  lemma {:induction false} PrintedReads(parts: seq<Part>)
    requires forall i | 0 <= i < |parts| :: parts[i].Reference? ==> IsValidReferenceName(parts[i].name)
    ensures Pieces(PrintParts(parts)) == Ok(Flatten(parts))
  {
    if parts != [] {
      PrintedReads(parts[1..]);
      PartReads(parts[0], PrintParts(parts[1..]));
      FlattenCons(parts[0], parts[1..]);
      assert parts == [parts[0]] + parts[1..];
    }
  }

  lemma CharsSnoc(ps: seq<Piece>, text: string)
    requires text != ""
    ensures ps + Chars(text) == (ps + Chars(text[..|text| - 1])) + [Char(text[|text| - 1])]
  {
  }

  lemma {:induction false} GroupChars(ps: seq<Piece>, parts: seq<Part>, text: string)
    requires Group(ps) == parts && (parts != [] ==> parts[|parts| - 1].Reference?)
    ensures Group(ps + Chars(text)) == Pending(parts, text)
    decreases |text|
  {
    if text == "" {
      assert ps + Chars(text) == ps;
    } else {
      var n := |text| - 1;
      GroupChars(ps, parts, text[..n]);
      CharsSnoc(ps, text);
      GathersChar(ps + Chars(text[..n]), parts, text[..n], text[n]);
      assert text[..n] + [text[n]] == text;
    }
  }

  lemma CanonicalPrefix(parts: seq<Part>)
    requires parts != [] && CanonicalParts(parts)
    ensures var before := parts[..|parts| - 1];
            && CanonicalParts(before)
            && (parts[|parts| - 1].Literal? ==>
                  parts[|parts| - 1].text != "" && (before != [] ==> before[|before| - 1].Reference?))
  {
    var n := |parts| - 1;
    assert 0 < n ==> !(parts[n - 1].Literal? && parts[n - 1 + 1].Literal?);
  }

  lemma GroupPart(ps: seq<Piece>, parts: seq<Part>, part: Part)
    requires Group(ps) == parts
    requires part.Literal? ==> part.text != "" && (parts != [] ==> parts[|parts| - 1].Reference?)
    ensures Group(ps + if part.Literal? then Chars(part.text) else [Ref(part.name)]) == parts + [part]
  {
    if part.Literal? {
      GroupChars(ps, parts, part.text);
    } else {
      GroupSnoc(ps, Ref(part.name));
    }
  }

  lemma {:induction false} GroupInvertsFlatten(parts: seq<Part>)
    requires CanonicalParts(parts)
    ensures Group(Flatten(parts)) == parts
    decreases |parts|
  {
    if parts != [] {
      var n := |parts| - 1;
      CanonicalPrefix(parts);
      GroupInvertsFlatten(parts[..n]);
      GroupPart(Flatten(parts[..n]), parts[..n], parts[n]);
    }
  }

  lemma {:induction false} FlattenRefs(parts: seq<Part>, name: string)
    ensures Ref(name) in Flatten(parts) <==> Reference(name) in parts
    decreases |parts|
  {
    if parts != [] {
      var n := |parts| - 1;
      FlattenRefs(parts[..n], name);
      assert parts == parts[..n] + [parts[n]];
    }
  }

  /** Printing any canonical template with each dollar doubled and parsing the text gives the template back. */
  lemma PrintParseRoundTrip(t: Template)
    requires Canonical(t)
    ensures Parse(PrintParts(t.parts)) == Ok(t)
  {
    PrintedReads(t.parts);
    GroupInvertsFlatten(t.parts);
    var ps := Flatten(t.parts);
    NamesSound(ps);
    forall n
      ensures n in Names(ps) <==> n in t.dependencies
    {
      FlattenRefs(t.parts, n);
    }
    AscendingUnique(Names(ps), t.dependencies);
  }

  // ---------------------------------------------------------------- the accepted texts

  /** A way to write one piece before `rest`: a lone dollar sign stands for itself unless it would open something. */
  predicate SpellsPiece(w: string, p: Piece, rest: string) {
    match p
    case Char(c) =>
      || (c != '$' && w == [c])
      || (c == '$' && w == "$$")
      || (c == '$' && w == "$" && (rest == "" || (rest[0] != '$' && rest[0] != '{')))
    case Ref(name) => IsValidReferenceName(name) && w == "${" + name + "}"
  }

  /** The grammar: a text is a sequence of spelled pieces. */
  ghost predicate Spelled(s: string, ps: seq<Piece>)
    decreases |ps|
  {
    if ps == [] then s == ""
    else exists k | 0 <= k <= |s| :: SpellsPiece(s[..k], ps[0], s[k..]) && Spelled(s[k..], ps[1..])
  }

  lemma PieceReads(w: string, p: Piece, rest: string)
    requires SpellsPiece(w, p, rest)
    ensures Pieces(w + rest) == Prepend([p], Pieces(rest))
  {
    if p.Ref? {
      ReferenceReads(p.name, rest);
    } else if w == "$$" {
      EscapeReads(rest);
    } else {
      PlainReads(p.c, rest);
    }
  }

  lemma {:induction false} SpelledReads(s: string, ps: seq<Piece>)
    requires Spelled(s, ps)
    ensures Pieces(s) == Ok(ps)
    decreases |ps|
  {
    if ps != [] {
      var k :| 0 <= k <= |s| && SpellsPiece(s[..k], ps[0], s[k..]) && Spelled(s[k..], ps[1..]);
      var w, rest := s[..k], s[k..];
      calc {
        Pieces(s);
        { assert s == w + rest; }
        Pieces(w + rest);
        { PieceReads(w, ps[0], rest); }
        Prepend([ps[0]], Pieces(rest));
        { SpelledReads(rest, ps[1..]); }
        Ok([ps[0]] + ps[1..]);
        { assert ps == [ps[0]] + ps[1..]; }
        Ok(ps);
      }
    }
  }

  lemma {:induction false} ReadNameSplits(s: string)
    requires ReadName(s).Ok?
    ensures s == ReadName(s).value.0 + "}" + ReadName(s).value.1
  {
    if s[0] != '}' {
      ReadNameSplits(s[1..]);
      assert s == [s[0]] + s[1..];
    } else {
      assert s == "}" + s[1..];
    }
  }

  /** The first piece read is spelled by the text it was read from. */
  lemma FirstPieceSpelled(s: string) returns (k: nat)
    requires s != "" && Pieces(s).Ok?
    ensures k <= |s| && Pieces(s).value != [] && SpellsPiece(s[..k], Pieces(s).value[0], s[k..])
    ensures 0 < k && Pieces(s[k..]) == Ok(Pieces(s).value[1..])
  {
    if "$$" <= s {
      k := 2;
      assert s[..2] == "$$";
    } else if "${" <= s {
      var (name, rest) := ReadName(s[2..]).value;
      ReadNameSplits(s[2..]);
      k := |name| + 3;
      assert s == "${" + name + "}" + rest;
      assert s[..k] == "${" + name + "}" && s[k..] == rest;
    } else {
      k := 1;
      assert s[..1] == [s[0]];
    }
  }

  lemma {:induction false} ReadIsSpelled(s: string)
    requires Pieces(s).Ok?
    ensures Spelled(s, Pieces(s).value)
    decreases |s|
  {
    if s != "" {
      var k := FirstPieceSpelled(s);
      ReadIsSpelled(s[k..]);
    }
  }

  /** A text is accepted exactly when it spells pieces of which one is a reference, and it spells no other pieces. */
  lemma AcceptedExactly(s: string)
    ensures Parse(s).Ok? <==> exists ps :: Spelled(s, ps) && Names(ps) != []
    ensures forall ps | Spelled(s, ps) && Names(ps) != [] :: Parse(s) == Ok(Template(Group(ps), Names(ps)))
  {
    forall ps | Spelled(s, ps)
      ensures Pieces(s) == Ok(ps)
    {
      SpelledReads(s, ps);
    }
    if Parse(s).Ok? {
      ReadIsSpelled(s);
      assert Spelled(s, Pieces(s).value) && Names(Pieces(s).value) != [];
    }
    if ps :| Spelled(s, ps) && Names(ps) != [] {
      assert Pieces(s) == Ok(ps);
    }
  }

  // ---------------------------------------------------------------- rendering

  datatype RenderError = Unresolved(name: string) | TooLong

  type Lookup = string -> Option<string>

  predicate Resolves(parts: seq<Part>, lookup: Lookup) {
    forall i | 0 <= i < |parts| :: parts[i].Reference? ==> lookup(parts[i].name).Some?
  }

  function PartValue(p: Part, lookup: Lookup): string
    requires p.Reference? ==> lookup(p.name).Some?
  {
    if p.Literal? then p.text else lookup(p.name).value
  }

  function Joined(parts: seq<Part>, lookup: Lookup): string
    requires Resolves(parts, lookup)
  {
    if parts == [] then ""
    else Joined(parts[..|parts| - 1], lookup) + PartValue(parts[|parts| - 1], lookup)
  }

  lemma {:induction false} PrefixJoins(parts: seq<Part>, lookup: Lookup, i: nat)
    requires Resolves(parts, lookup) && i <= |parts|
    ensures Utf8Size(Joined(parts[..i], lookup)) <= Utf8Size(Joined(parts, lookup))
    decreases |parts|
  {
    if i < |parts| {
      var n := |parts| - 1;
      PrefixJoins(parts[..n], lookup, i);
      assert parts[..n][..i] == parts[..i];
      Utf8Concat(Joined(parts[..n], lookup), PartValue(parts[n], lookup));
    } else {
      assert parts[..i] == parts;
    }
  }

  /** Succeeds exactly when every reference resolves and the whole text fits, and yields the plain concatenation. */
  method Render(t: Template, lookup: Lookup) returns (result: Result<string, RenderError>)
    ensures result.Ok? <==>
              Resolves(t.parts, lookup) && Utf8Size(Joined(t.parts, lookup)) <= 16_777_216
    ensures result.Ok? ==> result.value == Joined(t.parts, lookup)
    ensures result.Err? && result.error.Unresolved? ==>
              Reference(result.error.name) in t.parts && lookup(result.error.name).None?
  {
    var rendered := "";
    for i := 0 to |t.parts|
      invariant Resolves(t.parts[..i], lookup) && rendered == Joined(t.parts[..i], lookup)
      invariant Utf8Size(rendered) <= MAX_RENDERED_BYTES
    {
      var part := t.parts[i];
      if part.Reference? && lookup(part.name).None? {
        return Err(Unresolved(part.name));
      }
      var value := PartValue(part, lookup);
      Utf8Concat(rendered, value);
      assert t.parts[..i + 1][..i] == t.parts[..i];
      if Utf8Size(rendered) + Utf8Size(value) > MAX_RENDERED_BYTES {
        if Resolves(t.parts, lookup) {
          PrefixJoins(t.parts, lookup, i + 1);
        }
        return Err(TooLong);
      }
      rendered := rendered + value;
    }
    assert t.parts[..|t.parts|] == t.parts;
    result := Ok(rendered);
  }

  /** What the characters of a text denote once the references are looked up; looked-up text is not read again. */
  function Substitute(ps: seq<Piece>, lookup: Lookup): string
    requires forall i | 0 <= i < |ps| :: ps[i].Ref? ==> lookup(ps[i].name).Some?
  {
    if ps == [] then ""
    else
      var last := ps[|ps| - 1];
      Substitute(ps[..|ps| - 1], lookup) + if last.Char? then [last.c] else lookup(last.name).value
  }

  lemma JoinedSnoc(parts: seq<Part>, p: Part, lookup: Lookup)
    requires Resolves(parts, lookup) && (p.Reference? ==> lookup(p.name).Some?)
    ensures Resolves(parts + [p], lookup) && Joined(parts + [p], lookup) == Joined(parts, lookup) + PartValue(p, lookup)
  {
    assert (parts + [p])[..|parts|] == parts;
  }

  lemma PushCharJoins(parts: seq<Part>, c: char, lookup: Lookup)
    requires Resolves(parts, lookup)
    ensures Resolves(PushChar(parts, c), lookup) && Joined(PushChar(parts, c), lookup) == Joined(parts, lookup) + [c]
  {
    var m := |parts| - 1;
    if parts != [] && parts[m].Literal? {
      var before, text := parts[..m], parts[m].text;
      assert parts == before + [Literal(text)];
      JoinedSnoc(before, Literal(text), lookup);
      JoinedSnoc(before, Literal(text + [c]), lookup);
      assert Joined(before, lookup) + text + [c] == Joined(before, lookup) + (text + [c]);
    } else {
      JoinedSnoc(parts, Literal([c]), lookup);
    }
  }

  lemma {:induction false} GroupSubstitutes(ps: seq<Piece>, lookup: Lookup)
    requires forall i | 0 <= i < |ps| :: ps[i].Ref? ==> lookup(ps[i].name).Some?
    ensures Resolves(Group(ps), lookup)
    ensures Joined(Group(ps), lookup) == Substitute(ps, lookup)
    decreases |ps|
  {
    if ps != [] {
      var n := |ps| - 1;
      GroupSubstitutes(ps[..n], lookup);
      if ps[n].Char? {
        PushCharJoins(Group(ps[..n]), ps[n].c, lookup);
      } else {
        JoinedSnoc(Group(ps[..n]), Reference(ps[n].name), lookup);
      }
    }
  }

  /** End to end: the rendering of a parsed text is the text with each reference replaced once. */
  lemma RenderingSubstitutes(input: string, lookup: Lookup)
    requires Parse(input).Ok?
    requires forall n | n in Parse(input).value.dependencies :: lookup(n).Some?
    ensures Pieces(input).Ok?
    ensures forall i | 0 <= i < |Pieces(input).value| ::
              Pieces(input).value[i].Ref? ==> lookup(Pieces(input).value[i].name).Some?
    ensures Resolves(Parse(input).value.parts, lookup)
    ensures Joined(Parse(input).value.parts, lookup) == Substitute(Pieces(input).value, lookup)
  {
    var ps := Pieces(input).value;
    NamesSound(ps);
    forall i | 0 <= i < |ps|
      ensures ps[i].Ref? ==> lookup(ps[i].name).Some?
    {
      assert ps[i].Ref? ==> Ref(ps[i].name) in ps;
    }
    GroupSubstitutes(ps, lookup);
  }
}
