/** Address templates with `{project}`, `{profile}` and `{key}` placeholders, expanded in one pass. */
module AddressTemplate {
  import opened Prelude

  datatype Args = Args(project: string, profile: string, key: string)

  datatype Placeholder = ProjectHole | ProfileHole | KeyHole

  function Spelling(h: Placeholder): string {
    match h
    case ProjectHole => "project"
    case ProfileHole => "profile"
    case KeyHole => "key"
  }

  function Argument(h: Placeholder, args: Args): string {
    match h
    case ProjectHole => args.project
    case ProfileHole => args.profile
    case KeyHole => args.key
  }

  function Named(name: string): (r: Option<Placeholder>)
    ensures r.Some? ==> Spelling(r.value) == name
    ensures forall h :: Spelling(h) == name ==> r == Some(h)
  {
    if name == "project" then Some(ProjectHole)
    else if name == "profile" then Some(ProfileHole)
    else if name == "key" then Some(KeyHole)
    else None
  }

  datatype ExpandError = UnmatchedClose | UnmatchedOpen | UnknownPlaceholder(name: string)

  type Expansion = Result<string, ExpandError>

  // ---------------------------------------------------------------- what a template means

  /** A template as literals and placeholders; a literal holds no brace. */
  datatype Chunk = Lit(c: char) | Hole(which: Placeholder)

  predicate Readable(cs: seq<Chunk>) {
    forall i | 0 <= i < |cs| :: cs[i].Lit? ==> cs[i].c != '{' && cs[i].c != '}'
  }

  function Spell(cs: seq<Chunk>): string {
    if cs == [] then ""
    else (if cs[0].Lit? then [cs[0].c] else "{" + Spelling(cs[0].which) + "}") + Spell(cs[1..])
  }

  /** Each placeholder replaced by its argument, left to right; argument text is copied, never read. */
  function Fill(cs: seq<Chunk>, args: Args): string {
    if cs == [] then ""
    else (if cs[0].Lit? then [cs[0].c] else Argument(cs[0].which, args)) + Fill(cs[1..], args)
  }

  /** The template read one character at a time. */
  function Read(s: string): (r: Result<seq<Chunk>, ExpandError>)
    ensures r.Ok? ==> Readable(r.value)
    decreases |s|
  {
    if s == "" then Ok([])
    else if s[0] == '}' then Err(UnmatchedClose)
    else if s[0] == '{' then
      var close := Find(s[1..], '}');
      if close.None? then Err(UnmatchedOpen)
      else
        var name := s[1..][..close.value];
        var hole := Named(name);
        if hole.None? then Err(UnknownPlaceholder(name))
        else Cons(Hole(hole.value), Read(s[1..][close.value + 1..]))
    else Cons(Lit(s[0]), Read(s[1..]))
  }

  function Cons(c: Chunk, r: Result<seq<Chunk>, ExpandError>): Result<seq<Chunk>, ExpandError> {
    if r.Ok? then Ok([c] + r.value) else r
  }

  function Expanded(s: string, args: Args): Expansion {
    var r := Read(s);
    if r.Ok? then Ok(Fill(r.value, args)) else Err(r.error)
  }

  lemma NamesHaveNoBrace(h: Placeholder)
    ensures '}' !in Spelling(h) && '{' !in Spelling(h)
  {
  }

  lemma HoleReads(h: Placeholder, rest: string)
    ensures Read("{" + Spelling(h) + "}" + rest) == Cons(Hole(h), Read(rest))
  {
    var name := Spelling(h);
    var s := "{" + name + "}" + rest;
    NamesHaveNoBrace(h);
    assert s[1..] == name + "}" + rest;
    FindsFirst(name, '}', rest);
    assert s[1..][..|name|] == name && s[1..][|name| + 1..] == rest;
  }

  lemma LitReads(c: char, rest: string)
    requires c != '{' && c != '}'
    ensures Read([c] + rest) == Cons(Lit(c), Read(rest))
  {
    assert ([c] + rest)[1..] == rest;
  }

  lemma {:induction false} ReadsSpelling(cs: seq<Chunk>)
    requires Readable(cs)
    ensures Read(Spell(cs)) == Ok(cs)
  {
    if cs != [] {
      ReadsSpelling(cs[1..]);
      assert cs == [cs[0]] + cs[1..];
      if cs[0].Lit? {
        LitReads(cs[0].c, Spell(cs[1..]));
      } else {
        HoleReads(cs[0].which, Spell(cs[1..]));
      }
    }
  }

  lemma SpellsOneMore(chunk: Chunk, cs: seq<Chunk>)
    ensures Spell([chunk] + cs) == (if chunk.Lit? then [chunk.c] else "{" + Spelling(chunk.which) + "}") + Spell(cs)
  {
    assert ([chunk] + cs)[1..] == cs;
  }

  lemma SplitsAtClose(s: string, at: nat)
    requires s != "" && s[0] == '{' && at < |s| - 1 && s[1..][at] == '}'
    ensures s == "{" + s[1..][..at] + "}" + s[1..][at + 1..]
  {
  }

  lemma FirstHole(s: string) returns (h: Placeholder, rest: string)
    requires s != "" && s[0] == '{' && Read(s).Ok?
    ensures |rest| < |s| && s == "{" + Spelling(h) + "}" + rest
    ensures Read(rest).Ok? && Read(s).value == [Hole(h)] + Read(rest).value
  {
    var at := Find(s[1..], '}').value;
    h, rest := Named(s[1..][..at]).value, s[1..][at + 1..];
    SplitsAtClose(s, at);
  }

  lemma {:induction false} SpellsReading(s: string)
    requires Read(s).Ok?
    ensures Spell(Read(s).value) == s
    decreases |s|
  {
    if s == "" {
    } else if s[0] == '{' {
      var h, rest := FirstHole(s);
      SpellsReading(rest);
      SpellsOneMore(Hole(h), Read(rest).value);
    } else {
      SpellsReading(s[1..]);
      SpellsOneMore(Lit(s[0]), Read(s[1..]).value);
      assert s == [s[0]] + s[1..];
    }
  }

  /**
   * Expansion succeeds exactly on texts that spell literals and placeholders,
   * whatever the arguments, and then fills in each placeholder of that reading.
   */
  lemma ExpansionMeaning(s: string, args: Args)
    ensures Expanded(s, args).Ok? <==> exists cs :: Readable(cs) && Spell(cs) == s
    ensures forall cs | Readable(cs) && Spell(cs) == s :: Expanded(s, args) == Ok(Fill(cs, args))
  {
    if Read(s).Ok? {
      SpellsReading(s);
    }
    forall cs | Readable(cs) && Spell(cs) == s
      ensures Read(s) == Ok(cs)
    {
      ReadsSpelling(cs);
    }
  }

  // ---------------------------------------------------------------- the expander

  function After(out: string, rest: string, args: Args): Expansion {
    var r := Expanded(rest, args);
    if r.Ok? then Ok(out + r.value) else r
  }

  lemma {:induction false} CopiesLiteral(out: string, prefix: string, rest: string, args: Args)
    requires '{' !in prefix && '}' !in prefix
    ensures After(out, prefix + rest, args) == After(out + prefix, rest, args)
    decreases |prefix|
  {
    var s := prefix + rest;
    if prefix == "" {
      assert s == rest && out + prefix == out;
    } else {
      assert s[1..] == prefix[1..] + rest;
      CopiesLiteral(out + [prefix[0]], prefix[1..], rest, args);
      assert out + [prefix[0]] + prefix[1..] == out + prefix;
      var r := Read(s[1..]);
      if r.Ok? {
        assert ([Lit(s[0])] + r.value)[1..] == r.value;
        assert out + ([s[0]] + Fill(r.value, args)) == out + [s[0]] + Fill(r.value, args);
      }
    }
  }

  lemma FillsHole(out: string, h: Placeholder, rest: string, args: Args)
    ensures After(out, "{" + Spelling(h) + "}" + rest, args) == After(out + Argument(h, args), rest, args)
  {
    HoleReads(h, rest);
    var r := Read(rest);
    if r.Ok? {
      assert ([Hole(h)] + r.value)[1..] == r.value;
      assert out + (Argument(h, args) + Fill(r.value, args)) == out + Argument(h, args) + Fill(r.value, args);
    }
  }

  /** A placeholder between two literals is filled with the argument it names. */
  lemma FillsBetween(a: string, h: Placeholder, b: string, args: Args)
    requires '{' !in a && '}' !in a && '{' !in b && '}' !in b
    ensures Expanded(a + ("{" + Spelling(h) + "}" + b), args) == Ok(a + Argument(h, args) + b)
  {
    var rest := "{" + Spelling(h) + "}" + b;
    var r := Expanded(a + rest, args);
    assert r.Ok? ==> "" + r.value == r.value;
    CopiesLiteral("", a, rest, args);
    assert "" + a == a;
    FillsHole(a, h, b, args);
    assert b + "" == b;
    var out := a + Argument(h, args);
    CopiesLiteral(out, b, "", args);
    assert out + b + "" == out + b;
  }

  /** Each of the three placeholders, spelled out, takes its own argument. */
  lemma PlaceholdersTakeTheirOwn(a: string, b: string, args: Args)
    requires '{' !in a && '}' !in a && '{' !in b && '}' !in b
    ensures Expanded(a + "{project}" + b, args) == Ok(a + args.project + b)
    ensures Expanded(a + "{profile}" + b, args) == Ok(a + args.profile + b)
    ensures Expanded(a + "{key}" + b, args) == Ok(a + args.key + b)
  {
    FillsBetween(a, ProjectHole, b, args);
    FillsBetween(a, ProfileHole, b, args);
    FillsBetween(a, KeyHole, b, args);
    assert a + "{project}" + b == a + ("{" + "project" + "}" + b);
    assert a + "{profile}" + b == a + ("{" + "profile" + "}" + b);
    assert a + "{key}" + b == a + ("{" + "key" + "}" + b);
  }

  /** A closing brace before any opening one is the first error, wherever it stands. */
  lemma {:induction false} CloseFails(prefix: string, rest: string)
    requires '}' in prefix && '{' !in prefix
    ensures Read(prefix + rest) == Err(UnmatchedClose)
  {
    if prefix[0] != '}' {
      assert prefix == [prefix[0]] + prefix[1..] && prefix[0] != '{';
      CloseFails(prefix[1..], rest);
      assert (prefix + rest)[1..] == prefix[1..] + rest;
    }
  }

  lemma OpenFails(rest: string)
    requires Find(rest, '}').None? || Named(rest[..Find(rest, '}').value]).None?
    ensures Read("{" + rest) ==
            Err(if Find(rest, '}').None? then UnmatchedOpen else UnknownPlaceholder(rest[..Find(rest, '}').value]))
  {
    assert ("{" + rest)[1..] == rest;
  }

  /** Resolve the placeholder after an opening brace. */
  method ReadHole(afterOpen: string) returns (hole: Result<Placeholder, ExpandError>, rest: string)
    ensures hole.Ok? ==> |rest| < |afterOpen| && "{" + afterOpen == "{" + Spelling(hole.value) + "}" + rest
    ensures hole.Err? ==> Read("{" + afterOpen) == Err(hole.error)
  {
    rest := "";
    var close := Find(afterOpen, '}');
    if close.None? {
      OpenFails(afterOpen);
      return Err(UnmatchedOpen), rest;
    }
    var placeholder := afterOpen[..close.value];
    var named := Named(placeholder);
    if named.None? {
      OpenFails(afterOpen);
      return Err(UnknownPlaceholder(placeholder)), rest;
    }
    rest := afterOpen[close.value + 1..];
    assert afterOpen == placeholder + "}" + rest;
    hole := Ok(named.value);
  }

  /** Copy up to the next brace, resolve one placeholder, repeat on what is left of the template. */
  method ExpandAddressTemplate(template: string, args: Args) returns (result: Expansion)
    ensures result == Expanded(template, args)
  {
    var out := "";
    var rest := template;
    assert Expanded(template, args).Ok? ==> "" + Expanded(template, args).value == Expanded(template, args).value;
    while true
      invariant After(out, rest, args) == Expanded(template, args)
      decreases |rest|
    {
      var open := Find(rest, '{');
      if open.None? {
        assert rest + "" == rest;
        if '}' in rest {
          CloseFails(rest, "");
          return Err(UnmatchedClose);
        }
        CopiesLiteral(out, rest, "", args);
        assert out + rest + "" == out + rest;
        return Ok(out + rest);
      }
      var prefix := rest[..open.value];
      var afterOpen := rest[open.value + 1..];
      assert rest == prefix + ("{" + afterOpen);
      if '}' in prefix {
        CloseFails(prefix, "{" + afterOpen);
        return Err(UnmatchedClose);
      }
      CopiesLiteral(out, prefix, "{" + afterOpen, args);
      out := out + prefix;
      var hole, tail := ReadHole(afterOpen);
      if hole.Err? {
        return Err(hole.error);
      }
      FillsHole(out, hole.value, tail, args);
      rest := tail;
      out := out + Argument(hole.value, args);
    }
  }

  // ---------------------------------------------------------------- whole addresses

  datatype Template = Template(
    item: string, field: Option<string>, vault: Option<string>, section: Option<string>, version: Option<string>)

  predicate CoordinateValid(s: Option<string>) {
    s.Some? ==> Trim(s.value) != "" && Expanded(s.value, Args("project", "profile", "KEY")).Ok?
  }

  predicate Validate(t: Template) {
    && CoordinateValid(t.vault) && CoordinateValid(Some(t.item)) && CoordinateValid(t.section)
    && CoordinateValid(t.field) && CoordinateValid(t.version)
  }

  /** A coordinate that is absent, or neither blank nor anything but literals and placeholders. */
  ghost predicate Expandable(s: Option<string>) {
    s.Some? ==> !AllSpace(s.value) && exists cs :: Readable(cs) && Spell(cs) == s.value
  }

  lemma CoordinateValidExactly(s: Option<string>)
    ensures CoordinateValid(s) <==> Expandable(s)
  {
    if s.Some? {
      BlankExactly(s.value);
      ExpansionMeaning(s.value, Args("project", "profile", "KEY"));
    }
  }

  /** Every coordinate is expanded on its own; None when the template or a coordinate is refused. */
  method Expand(t: Template, args: Args) returns (address: Option<NativeAddress<string>>)
    ensures address.Some? <==>
              && Expandable(Some(t.item)) && Expandable(t.field) && Expandable(t.vault)
              && Expandable(t.section) && Expandable(t.version)
    ensures address.Some? ==>
              && Fills(Some(t.item), args, Some(address.value.item)) && Fills(t.field, args, address.value.field)
              && Fills(t.vault, args, address.value.vault) && Fills(t.section, args, address.value.section)
              && Fills(t.version, args, address.value.version)
  {
    CoordinateValidExactly(Some(t.item));
    CoordinateValidExactly(t.field);
    CoordinateValidExactly(t.vault);
    CoordinateValidExactly(t.section);
    CoordinateValidExactly(t.version);
    if !Validate(t) {
      return None;
    }
    var item := ExpandCoordinate(Some(t.item), args);
    var field := ExpandCoordinate(t.field, args);
    var vault := ExpandCoordinate(t.vault, args);
    var section := ExpandCoordinate(t.section, args);
    var version := ExpandCoordinate(t.version, args);
    address := Some(NativeAddress(item.value, field, vault, section, version));
  }

  /** An absent coordinate stays absent; a present one is filled in under every reading of its template. */
  ghost predicate Fills(template: Option<string>, args: Args, value: Option<string>) {
    if template.None? then value.None?
    else
      && value.Some?
      && (exists cs :: Readable(cs) && Spell(cs) == template.value)
      && (forall cs | Readable(cs) && Spell(cs) == template.value :: value.value == Fill(cs, args))
  }

  /** A coordinate that passes validation with dummy arguments expands for every project, profile and key. */
  method ExpandCoordinate(template: Option<string>, args: Args) returns (value: Option<string>)
    requires CoordinateValid(template)
    ensures Fills(template, args, value)
  {
    if template.None? {
      return None;
    }
    ExpansionMeaning(template.value, args);
    var expanded := ExpandAddressTemplate(template.value, args);
    value := Some(expanded.value);
  }
}
