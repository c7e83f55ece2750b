/** Small shared vocabulary: optional values, results, and facts about strings. */
module Basics {

  datatype Option<+T> = None | Some(value: T)

  datatype Result<+T> = Ok(value: T) | Err

  /** No occurrence of c in s. */
  predicate Lacks(s: string, c: char) {
    forall i :: 0 <= i < |s| ==> s[i] != c
  }

  predicate HasSuffix(s: string, t: string) {
    |t| <= |s| && s[|s| - |t|..] == t
  }

  /** A loop over s has done one more element. */
  lemma TakeNext(s: seq<string>, i: nat)
    requires i < |s|
    ensures s[..i + 1] == s[..i] + [s[i]]
    ensures s[..i + 1][..i] == s[..i]
  {
  }

  lemma TakeAll(s: seq<string>)
    ensures s[..|s|] == s
  {
  }

  /** s without its last element, and that element. */
  lemma SplitLast(s: seq<string>)
    requires s != []
    ensures s == s[..|s| - 1] + [s[|s| - 1]]
  {
  }

  /** Splits s at its first "::", if it has one. */
  function Cut(s: string): Option<(string, string)> {
    if |s| < 2 then None
    else if s[0] == ':' && s[1] == ':' then Some(("", s[2..]))
    else match Cut(s[1..])
         case None => None
         case Some(parts) => Some(([s[0]] + parts.0, parts.1))
  }

  /** A head without ':' is exactly what the first "::" cuts off. */
  lemma {:induction false} CutAtSeparator(u: string, x: string)
    requires Lacks(u, ':')
    ensures Cut(u + "::" + x) == Some((u, x))
  {
    var s := u + "::" + x;
    if u == "" {
      assert s[2..] == x;
    } else {
      assert s[1..] == u[1..] + "::" + x;
      CutAtSeparator(u[1..], x);
      assert [u[0]] + u[1..] == u;
    }
  }
}

/** Expiry times and clock readings. */
module Expiries {
  import opened Basics

  /** A stored item with this expiry can still be served at this clock reading. */
  predicate LiveAt(exp: Option<int>, now: int) {
    exp.None? || now <= exp.value
  }

  /** The expiry a TTL gives at a clock reading: a TTL that is not positive never expires. */
  function Expiry(now: int, ttl: int): Option<int> {
    if ttl > 0 then Some(now + ttl) else None
  }
  const MILLI := 1_000_000

  /** Go's Duration.Milliseconds: whole milliseconds, rounded toward zero. */
  function Millis(d: int): int {
    if d >= 0 then d / MILLI else -((-d) / MILLI)
  }

  /** A reading of the nanosecond clock as Redis counts it. */
  function ClockMillis(time: int): int {
    time / MILLI
  }
}
