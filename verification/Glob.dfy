/** Redis glob patterns, and the escaping in redisstore/scan.go that keeps prefixes literal. */
module Glob {
  import opened Basics
  import opened Keyspace

  /** Redis's matcher: '*' any run, '?' any character, '[...]' a class, '\' takes the next
      character literally, everything else is itself. */
  predicate Matches(p: string, s: string)
    decreases |p|, |s|
  {
    if p == "" then s == ""
    else if p[0] == '*' then Matches(p[1..], s) || (s != "" && Matches(p, s[1..]))
    else if s == "" then false
    else if p[0] == '?' then Matches(p[1..], s[1..])
    else if p[0] == '[' then
      var negated := |p| > 1 && p[1] == '^';
      var cls := ScanClass(p[(if negated then 2 else 1)..], s[0], false);
      cls.0 != negated && Matches(cls.1, s[1..])
    else if p[0] == '\\' && |p| >= 2 then p[1] == s[0] && Matches(p[2..], s[1..])
    else p[0] == s[0] && Matches(p[1..], s[1..])
  }

  /** Reads a class up to its ']': whether it has c, and the pattern behind it. */
  function ScanClass(p: string, c: char, found: bool): (r: (bool, string))
    ensures |r.1| <= |p|
  {
    if p == "" then (found, "")
    else if p[0] == '\\' && |p| >= 2 then ScanClass(p[2..], c, found || p[1] == c)
    else if p[0] == ']' then (found, p[1..])
    else if |p| >= 3 && p[1] == '-' then ScanClass(p[3..], c, found || p[0] <= c <= p[2] || p[2] <= c <= p[0])
    else ScanClass(p[1..], c, found || p[0] == c)
  }

  predicate IsMeta(c: char) {
    c == '\\' || c == '*' || c == '?' || c == '[' || c == ']'
  }

  function Escaped(c: char): string {
    if IsMeta(c) then ['\\', c] else [c]
  }

  /** What globLiteral builds. */
  function Literal(s: string): string {
    if s == "" then "" else Escaped(s[0]) + Literal(s[1..])
  }

  method GlobLiteral(s: string) returns (b: string)
    ensures b == Literal(s)
  {
    b := "";
    LiteralAppend("", s);
    for i := 0 to |s|
      invariant b == Literal(s[..i])
    {
      if s[i] == '\\' || s[i] == '*' || s[i] == '?' || s[i] == '[' || s[i] == ']' {
        b := b + "\\";
      }
      b := b + [s[i]];
      LiteralAppend(s[..i], [s[i]]);
      assert s[..i + 1] == s[..i] + [s[i]];
    }
    assert s[..|s|] == s;
  }

  lemma {:induction false} LiteralAppend(a: string, b: string)
    ensures Literal(a + b) == Literal(a) + Literal(b)
  {
    if a == "" {
      assert a + b == b;
    } else {
      LiteralAppend(a[1..], b);
      assert (a + b)[1..] == a[1..] + b;
    }
  }

  function MatchPattern(m: Match): string {
    Literal(m.prefix) + "*" + Literal(m.suffix)
  }

  lemma EscapedMatches(c: char, rest: string, s: string)
    ensures Matches(Escaped(c) + rest, s) <==> s != "" && s[0] == c && Matches(rest, s[1..])
  {
    var p := Escaped(c) + rest;
    if IsMeta(c) {
      assert p[0] == '\\' && p[1] == c && p[2..] == rest;
    } else {
      assert p[0] == c && p[1..] == rest;
    }
  }

  /** An escaped literal in front matches exactly itself. */
  lemma {:induction false} LiteralMatches(a: string, rest: string, s: string)
    ensures Matches(Literal(a) + rest, s) <==> a <= s && Matches(rest, s[|a|..])
  {
    if a == "" {
      assert Literal(a) + rest == rest && s[0..] == s;
    } else {
      assert Literal(a) + rest == Escaped(a[0]) + (Literal(a[1..]) + rest);
      EscapedMatches(a[0], Literal(a[1..]) + rest, s);
      if s != "" {
        LiteralMatches(a[1..], rest, s[1..]);
        assert a <= s <==> a[0] == s[0] && a[1..] <= s[1..] by {
          assert a == [a[0]] + a[1..] && s == [s[0]] + s[1..];
        }
        if a <= s {
          assert s[1..][|a[1..]|..] == s[|a|..];
        }
      }
    }
  }

  lemma LiteralOnly(b: string, s: string)
    ensures Matches(Literal(b), s) <==> s == b
  {
    LiteralMatches(b, "", s);
    assert Literal(b) + "" == Literal(b);
  }

  lemma {:induction false} StarLiteralMatches(b: string, s: string)
    ensures Matches("*" + Literal(b), s) <==> HasSuffix(s, b)
    decreases |s|
  {
    var p := "*" + Literal(b);
    assert p[0] == '*' && p[1..] == Literal(b);
    LiteralOnly(b, s);
    if s == "" {
      assert HasSuffix(s, b) <==> b == "";
    } else {
      StarLiteralMatches(b, s[1..]);
      if |b| < |s| {
        assert s[1..][|s| - 1 - |b|..] == s[|s| - |b|..];
      }
    }
  }

  /** The escaped pattern selects exactly the family, whatever characters its prefix and suffix hold. */
  lemma PatternIsExact(m: Match, key: string)
    ensures Matches(MatchPattern(m), key) <==> m.Contains(key)
  {
    LiteralMatches(m.prefix, "*" + Literal(m.suffix), key);
    assert MatchPattern(m) == Literal(m.prefix) + ("*" + Literal(m.suffix));
    if m.prefix <= key {
      var rest := key[|m.prefix|..];
      StarLiteralMatches(m.suffix, rest);
      if |m.suffix| <= |rest| {
        assert rest[|rest| - |m.suffix|..] == key[|key| - |m.suffix|..];
      }
    }
  }

  /** The pattern of DeleteByPrefix, an escaped prefix and a star, selects exactly the keys with the prefix. */
  lemma PrefixPatternIsExact(prefix: string, key: string)
    ensures Matches(Literal(prefix) + "*", key) <==> prefix <= key
  {
    PatternIsExact(Match(prefix, ""), key);
    assert MatchPattern(Match(prefix, "")) == Literal(prefix) + "*";
    if prefix <= key { assert HasSuffix(key, ""); }
  }
}
