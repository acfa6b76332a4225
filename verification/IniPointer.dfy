/** INI pointers: RFC 6901 pointers of one or two segments. */
module IniPointer {
  import opened Prelude

  /** `str::replace` of a two-character pattern: left to right, without overlap. */
  function Replace(s: string, a: char, b: char, with: char): string
    decreases |s|
  {
    if |s| < 2 then s
    else if s[0] == a && s[1] == b then [with] + Replace(s[2..], a, b, with)
    else [s[0]] + Replace(s[1..], a, b, with)
  }

  function UnescapeSegment(segment: string): string {
    Replace(Replace(segment, '~', '1', '/'), '~', '0', '~')
  }

  /** Section 3 of RFC 6901: a tilde is only ever followed by 0 or 1. */
  predicate EscapesValid(s: string)
    decreases |s|
  {
    if s == "" then true
    else if s[0] != '~' then EscapesValid(s[1..])
    else 2 <= |s| && (s[1] == '0' || s[1] == '1') && EscapesValid(s[2..])
  }

  /** An empty pointer is valid; any other starts with a slash. */
  method ValidateJsonPointer(pointer: string) returns (ok: bool)
    ensures ok <==> pointer == "" || (pointer[0] == '/' && EscapesValid(pointer))
  {
    if pointer == "" {
      return true;
    }
    if pointer[0] != '/' {
      return false;
    }
    var i := 0;
    assert pointer[0..] == pointer;
    while i < |pointer|
      invariant 0 <= i <= |pointer|
      invariant EscapesValid(pointer) == EscapesValid(pointer[i..])
    {
      assert pointer[i..][1..] == pointer[i + 1..];
      if pointer[i] == '~' {
        if i + 1 == |pointer| || (pointer[i + 1] != '0' && pointer[i + 1] != '1') {
          return false;
        }
        assert pointer[i..][2..] == pointer[i + 2..];
        i := i + 2;
      } else {
        i := i + 1;
      }
    }
    ok := true;
  }

  /** The raw section, if any, and the raw key; None for any other shape. */
  function RawParts(pointer: string): Option<(Option<string>, string)> {
    if pointer == "" || pointer[0] != '/' then None
    else
      var path := pointer[1..];
      var at := Find(path, '/');
      var section := if at.Some? then Some(path[..at.value]) else None;
      var key := if at.Some? then path[at.value + 1..] else path;
      if section == Some("") || key == "" || '/' in key then None else Some((section, key))
  }

  function PointerParts(pointer: string): Option<(Option<string>, string)> {
    var raw := RawParts(pointer);
    if raw.None? then None
    else
      var (section, key) := raw.value;
      Some((if section.Some? then Some(UnescapeSegment(section.value)) else None, UnescapeSegment(key)))
  }

  predicate Accepted(pointer: string) {
    PointerParts(pointer).Some? && EscapesValid(pointer)
  }

  // ---------------------------------------------------------------- the standard's decoder

  /** Section 4 of RFC 6901 in one pass: each escape is decoded once, from the left. */
  function DecodeSegment(s: string): string
    requires EscapesValid(s)
    decreases |s|
  {
    if s == "" then ""
    else if s[0] != '~' then [s[0]] + DecodeSegment(s[1..])
    else [if s[1] == '1' then '/' else '~'] + DecodeSegment(s[2..])
  }

  lemma ReplaceSkips(c: char, s: string, a: char, b: char, with: char)
    requires c != a
    ensures Replace([c] + s, a, b, with) == [c] + Replace(s, a, b, with)
  {
    assert ([c] + s)[1..] == s;
  }

  lemma ReplaceHits(s: string, a: char, b: char, with: char)
    ensures Replace([a, b] + s, a, b, with) == [with] + Replace(s, a, b, with)
  {
    assert ([a, b] + s)[2..] == s;
  }

  lemma ReplacePasses(s: string, a: char, other: char, b: char, with: char)
    requires other != b && other != a
    ensures Replace([a, other] + s, a, b, with) == [a, other] + Replace(s, a, b, with)
  {
    assert ([a, other] + s)[1..] == [other] + s;
    ReplaceSkips(other, s, a, b, with);
    assert [a] + ([other] + Replace(s, a, b, with)) == [a, other] + Replace(s, a, b, with);
  }

  /** On valid escapes the two whole-string replacements, `~1` first, are the one-pass decoder. */
  lemma {:induction false} ReplacementsDecode(s: string)
    requires EscapesValid(s)
    ensures UnescapeSegment(s) == DecodeSegment(s)
    decreases |s|
  {
    if s == "" {
    } else if s[0] != '~' {
      ReplacementsDecode(s[1..]);
      assert s == [s[0]] + s[1..];
      ReplaceSkips(s[0], s[1..], '~', '1', '/');
      ReplaceSkips(s[0], Replace(s[1..], '~', '1', '/'), '~', '0', '~');
    } else {
      var rest := s[2..];
      ReplacementsDecode(rest);
      assert s == [s[0], s[1]] + rest;
      if s[1] == '1' {
        ReplaceHits(rest, '~', '1', '/');
        ReplaceSkips('/', Replace(rest, '~', '1', '/'), '~', '0', '~');
      } else {
        ReplacePasses(rest, '~', '0', '1', '/');
        ReplaceHits(Replace(rest, '~', '1', '/'), '~', '0', '~');
      }
    }
  }

  lemma {:induction false} ValidSplits(a: string, b: string)
    requires EscapesValid(a)
    ensures EscapesValid(a + b) <==> EscapesValid(b)
    decreases |a|
  {
    if a == "" {
      assert a + b == b;
    } else if a[0] != '~' {
      assert (a + b)[1..] == a[1..] + b;
      ValidSplits(a[1..], b);
    } else {
      assert (a + b)[2..] == a[2..] + b;
      ValidSplits(a[2..], b);
    }
  }

  lemma {:induction false} ValidPrefix(a: string, b: string)
    requires EscapesValid(a + "/" + b)
    ensures EscapesValid(a)
    decreases |a|
  {
    var s := a + "/" + b;
    if a == "" {
    } else if a[0] != '~' {
      assert s[1..] == a[1..] + "/" + b;
      ValidPrefix(a[1..], b);
    } else {
      assert |a| >= 2;
      assert s[2..] == a[2..] + "/" + b;
      ValidPrefix(a[2..], b);
    }
  }

  lemma ValidParts(section: string, key: string)
    requires EscapesValid(section + "/" + key)
    ensures EscapesValid(section) && EscapesValid(key)
  {
    ValidPrefix(section, key);
    var tail := "/" + key;
    assert section + "/" + key == section + tail;
    ValidSplits(section, tail);
    assert tail[1..] == key;
  }

  lemma RawPartsValid(pointer: string)
    requires RawParts(pointer).Some? && EscapesValid(pointer)
    ensures var (section, key) := RawParts(pointer).value;
            EscapesValid(key) && (section.Some? ==> EscapesValid(section.value))
  {
    var path := pointer[1..];
    var at := Find(path, '/');
    if at.Some? {
      var section, key := path[..at.value], path[at.value + 1..];
      assert path == section + "/" + key;
      ValidParts(section, key);
    }
  }

  /** So on every accepted pointer each part is decoded as the standard says. */
  lemma AcceptedDecodes(pointer: string)
    requires Accepted(pointer)
    ensures var (section, key) := RawParts(pointer).value;
            && EscapesValid(key) && (section.Some? ==> EscapesValid(section.value))
            && PointerParts(pointer) ==
               Some((if section.Some? then Some(DecodeSegment(section.value)) else None, DecodeSegment(key)))
  {
    RawPartsValid(pointer);
    var (section, key) := RawParts(pointer).value;
    if section.Some? {
      ReplacementsDecode(section.value);
    }
    ReplacementsDecode(key);
  }

  // ---------------------------------------------------------------- round trip

  function EscapeSegment(s: string): string {
    if s == "" then ""
    else (if s[0] == '~' then "~0" else if s[0] == '/' then "~1" else [s[0]]) + EscapeSegment(s[1..])
  }

  function Join(section: Option<string>, key: string): string {
    if section.Some? then "/" + EscapeSegment(section.value) + "/" + EscapeSegment(key) else "/" + EscapeSegment(key)
  }

  lemma {:induction false} EscapedIsClean(s: string)
    ensures EscapesValid(EscapeSegment(s)) && '/' !in EscapeSegment(s)
    ensures DecodeSegment(EscapeSegment(s)) == s
    ensures s != "" ==> EscapeSegment(s) != ""
  {
    if s != "" {
      EscapedIsClean(s[1..]);
      var e, rest := EscapeSegment(s), EscapeSegment(s[1..]);
      if s[0] == '~' || s[0] == '/' {
        assert e[2..] == rest;
      } else {
        assert e[1..] == rest;
      }
    }
  }

  lemma SplitsAtSlash(pointer: string, s: string, k: string)
    requires pointer == "/" + s + "/" + k && s != "" && k != "" && '/' !in s && '/' !in k
    ensures RawParts(pointer) == Some((Some(s), k))
  {
    var path := pointer[1..];
    assert path == s + "/" + k;
    FindsFirst(s, '/', k);
    assert path[..|s|] == s && path[|s| + 1..] == k;
  }

  lemma SplitsBareKey(pointer: string, k: string)
    requires pointer == "/" + k && k != "" && '/' !in k
    ensures RawParts(pointer) == Some((None, k))
  {
    assert pointer[1..] == k;
  }

  lemma JoinSplits(section: Option<string>, key: string)
    requires key != "" && section != Some("")
    ensures RawParts(Join(section, key)) ==
            Some((if section.Some? then Some(EscapeSegment(section.value)) else None, EscapeSegment(key)))
  {
    EscapedIsClean(key);
    if section.Some? {
      EscapedIsClean(section.value);
      SplitsAtSlash(Join(section, key), EscapeSegment(section.value), EscapeSegment(key));
    } else {
      SplitsBareKey(Join(section, key), EscapeSegment(key));
    }
  }

  lemma ValidAfterSlash(s: string)
    requires EscapesValid(s)
    ensures EscapesValid("/" + s)
  {
    assert ("/" + s)[1..] == s;
  }

  lemma ValidJoined(pointer: string, s: string, k: string)
    requires pointer == "/" + s + "/" + k && EscapesValid(s) && EscapesValid(k)
    ensures EscapesValid(pointer)
  {
    var tail := "/" + k;
    ValidAfterSlash(k);
    ValidSplits(s, tail);
    ValidAfterSlash(s + tail);
    assert pointer == "/" + (s + tail);
  }

  lemma JoinIsValid(section: Option<string>, key: string)
    ensures EscapesValid(Join(section, key))
  {
    EscapedIsClean(key);
    if section.Some? {
      EscapedIsClean(section.value);
      ValidJoined(Join(section, key), EscapeSegment(section.value), EscapeSegment(key));
    } else {
      ValidAfterSlash(EscapeSegment(key));
    }
  }

  /** Escaping and joining any non-empty names gives an accepted pointer that decodes to exactly those names. */
  lemma PointerRoundTrip(section: Option<string>, key: string)
    requires key != "" && section != Some("")
    ensures Accepted(Join(section, key))
    ensures PointerParts(Join(section, key)) == Some((section, key))
  {
    JoinSplits(section, key);
    JoinIsValid(section, key);
    EscapedIsClean(key);
    ReplacementsDecode(EscapeSegment(key));
    if section.Some? {
      EscapedIsClean(section.value);
      ReplacementsDecode(EscapeSegment(section.value));
    }
  }

  lemma {:induction false} DecodedEscapes(s: string)
    requires EscapesValid(s) && '/' !in s
    ensures EscapeSegment(DecodeSegment(s)) == s
    ensures s != "" ==> DecodeSegment(s) != ""
    decreases |s|
  {
    if s != "" {
      var n := if s[0] == '~' then 2 else 1;
      assert s == s[..n] + s[n..];
      DecodedEscapes(s[n..]);
      var d := DecodeSegment(s);
      assert d[1..] == DecodeSegment(s[n..]);
    }
  }

  lemma SplitShape(pointer: string, at: nat)
    requires pointer != "" && pointer[0] == '/' && at < |pointer| - 1 && pointer[1..][at] == '/'
    ensures pointer == "/" + pointer[1..][..at] + "/" + pointer[1..][at + 1..]
  {
  }

  lemma RawShape(pointer: string)
    requires RawParts(pointer).Some?
    ensures var (section, key) := RawParts(pointer).value;
            && key != "" && '/' !in key
            && (section.None? ==> pointer == "/" + key)
            && (section.Some? ==> section.value != "" && '/' !in section.value && pointer == "/" + section.value + "/" + key)
  {
    var at := Find(pointer[1..], '/');
    if at.Some? {
      SplitShape(pointer, at.value);
    } else {
      assert pointer == "/" + pointer[1..];
    }
  }

  /** And there are no others: an accepted pointer is the escaped form of the names it decodes to. */
  lemma AcceptedIsJoined(pointer: string)
    requires Accepted(pointer)
    ensures var (section, key) := PointerParts(pointer).value;
            key != "" && section != Some("") && Join(section, key) == pointer
  {
    AcceptedDecodes(pointer);
    var (section, key) := RawParts(pointer).value;
    RawShape(pointer);
    DecodedEscapes(key);
    if section.Some? {
      DecodedEscapes(section.value);
    }
  }
}
