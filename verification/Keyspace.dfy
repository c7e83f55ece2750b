/** The key layout of internal/keyspace: every key string the cache stores under. */
module Keyspace {
  import opened Basics

  const GLOBAL_PREFIX := "bc"
  const GRP_SEG := "grp"
  const MEMB_SEG := "memb"

  function NonAliasKey(ns: string, key: string): string {
    GLOBAL_PREFIX + "::" + ns + "::" + key
  }

  function ValueKey(ns: string, pk: string, sharded: bool): string {
    if sharded then GLOBAL_PREFIX + "::{" + ns + "::" + pk + "}"
    else GLOBAL_PREFIX + "::{" + ns + "}::" + pk
  }

  function MembersKey(ns: string, pk: string, sharded: bool): string {
    if sharded then GLOBAL_PREFIX + "::" + MEMB_SEG + "::{" + ns + "::" + pk + "}"
    else GLOBAL_PREFIX + "::" + MEMB_SEG + "::{" + ns + "}::" + pk
  }

  function PointerKey(ns: string, field: string, value: string, sharded: bool): string {
    if sharded then GLOBAL_PREFIX + "::" + GRP_SEG + "::{" + ns + "::" + field + "::" + value + "}"
    else GLOBAL_PREFIX + "::" + GRP_SEG + "::{" + ns + "}::" + field + "::" + value
  }

  function ColocatedValuePrefix(ns: string): string {
    GLOBAL_PREFIX + "::{" + ns + "}::"
  }

  function ColocatedMembersPrefix(ns: string): string {
    GLOBAL_PREFIX + "::" + MEMB_SEG + "::{" + ns + "}::"
  }

  function ColocatedGrpPrefix(ns: string): string {
    GLOBAL_PREFIX + "::" + GRP_SEG + "::{" + ns + "}::"
  }

  function NonAliasKeyPrefix(ns: string, keyPrefix: string): string {
    GLOBAL_PREFIX + "::" + ns + "::" + keyPrefix
  }

  /** A family of keys given by a literal prefix and a literal suffix. */
  datatype Match = Match(prefix: string, suffix: string) {
    predicate Contains(key: string) {
      |key| >= |prefix| + |suffix| && prefix <= key && HasSuffix(key, suffix)
    }
  }

  function ValueMatch(ns: string, pkPrefix: string, sharded: bool): Match {
    if sharded then Match(GLOBAL_PREFIX + "::{" + ns + "::" + pkPrefix, "}")
    else Match(GLOBAL_PREFIX + "::{" + ns + "}::" + pkPrefix, "")
  }

  function MembersMatch(ns: string, pkPrefix: string, sharded: bool): Match {
    if sharded then Match(GLOBAL_PREFIX + "::" + MEMB_SEG + "::{" + ns + "::" + pkPrefix, "}")
    else Match(GLOBAL_PREFIX + "::" + MEMB_SEG + "::{" + ns + "}::" + pkPrefix, "")
  }

  function PrimaryFromValueKey(ns: string, key: string, sharded: bool): Option<string> {
    PrimaryOf(ValueMatch(ns, "", sharded), key)
  }

  function PrimaryFromMembersKey(ns: string, key: string, sharded: bool): Option<string> {
    PrimaryOf(MembersMatch(ns, "", sharded), key)
  }

  function PrimaryOf(m: Match, key: string): Option<string> {
    if !m.Contains(key) then None
    else Some(key[|m.prefix|..|key| - |m.suffix|])
  }

  /** What the code asks of namespaces: no separator and no hash-tag brace. */
  predicate GoodNs(ns: string) {
    Lacks(ns, ':') && Lacks(ns, '{') && Lacks(ns, '}')
  }

  /** A plain cache must keep off the two reserved segments; a '}' does no harm to it. */
  predicate GoodPlainNs(ns: string) {
    Lacks(ns, ':') && Lacks(ns, '{') && ns != GRP_SEG && ns != MEMB_SEG
  }

  /** What the code asks of alias fields: non-empty, and no ':' that could move the "::". */
  predicate GoodField(field: string) {
    field != "" && Lacks(field, ':')
  }
}

/** The key families never overlap: one decoder reads every well-formed key back. */
module KeyCodec {
  import opened Basics
  import opened Keyspace

  datatype KeyId =
    | PlainId(ns: string, key: string)
    | ValueId(ns: string, pk: string, sharded: bool)
    | MembersId(ns: string, pk: string, sharded: bool)
    | PointerId(ns: string, field: string, value: string, sharded: bool)
    | NoId

  function Encode(id: KeyId): string
    requires !id.NoId?
  {
    match id
    case PlainId(ns, key) => NonAliasKey(ns, key)
    case ValueId(ns, pk, sharded) => ValueKey(ns, pk, sharded)
    case MembersId(ns, pk, sharded) => MembersKey(ns, pk, sharded)
    case PointerId(ns, field, value, sharded) => PointerKey(ns, field, value, sharded)
  }

  predicate Good(id: KeyId) {
    match id
    case PlainId(ns, _) => GoodPlainNs(ns)
    case ValueId(ns, _, _) => GoodNs(ns)
    case MembersId(ns, _, _) => GoodNs(ns)
    case PointerId(ns, field, _, _) => GoodNs(ns) && GoodField(field)
    case NoId => false
  }

  datatype Tagged = Tagged(ns: string, body: string, sharded: bool)

  /** Reads "{ns}::body" or "{ns::body}". */
  function DecodeTagged(r: string): Option<Tagged> {
    if |r| == 0 || r[0] != '{' then None
    else match Cut(r[1..])
         case None => None
         case Some((head, rest)) =>
           if |head| > 0 && head[|head| - 1] == '}' then Some(Tagged(head[..|head| - 1], rest, false))
           else if |rest| > 0 && rest[|rest| - 1] == '}' then Some(Tagged(head, rest[..|rest| - 1], true))
           else None
  }

  function Decode(key: string): KeyId {
    match Cut(key)
    case None => NoId
    case Some((_, r)) =>
      if |r| > 0 && r[0] == '{' then
        match DecodeTagged(r)
        case None => NoId
        case Some(Tagged(ns, pk, sharded)) => ValueId(ns, pk, sharded)
      else match Cut(r)
           case None => NoId
           case Some((seg, rest)) => DecodeSegment(seg, rest)
  }

  /** Reads the key behind "bc::seg::". */
  function DecodeSegment(seg: string, rest: string): KeyId {
    if seg == MEMB_SEG then
      match DecodeTagged(rest)
      case None => NoId
      case Some(Tagged(ns, pk, sharded)) => MembersId(ns, pk, sharded)
    else if seg == GRP_SEG then
      match DecodeTagged(rest)
      case None => NoId
      case Some(Tagged(ns, body, sharded)) =>
        match Cut(body)
        case None => NoId
        case Some((field, value)) => PointerId(ns, field, value, sharded)
    else PlainId(seg, rest)
  }

  /** The hash-tagged tail of an alias-group key. */
  function TaggedTail(ns: string, body: string, sharded: bool): string {
    if sharded then "{" + ns + "::" + body + "}" else "{" + ns + "}::" + body
  }

  lemma TaggedRoundTrip(ns: string, body: string, sharded: bool)
    requires GoodNs(ns)
    ensures DecodeTagged(TaggedTail(ns, body, sharded)) == Some(Tagged(ns, body, sharded))
  {
    var r := TaggedTail(ns, body, sharded);
    if sharded {
      assert r[1..] == ns + "::" + (body + "}");
      CutAtSeparator(ns, body + "}");
      assert (body + "}")[..|body|] == body;
    } else {
      assert r[1..] == (ns + "}") + "::" + body;
      CutAtSeparator(ns + "}", body);
      assert (ns + "}")[..|ns|] == ns;
    }
  }

  lemma DecodeBehind(key: string, seg: string, rest: string)
    requires Lacks(seg, ':') && Lacks(seg, '{')
    requires key == GLOBAL_PREFIX + "::" + (seg + "::" + rest)
    ensures Decode(key) == DecodeSegment(seg, rest)
  {
    CutAtSeparator(GLOBAL_PREFIX, seg + "::" + rest);
    CutAtSeparator(seg, rest);
    assert (seg + "::" + rest)[0] == if seg == "" then ':' else seg[0];
  }

  lemma DecodeTaggedTail(tail: string)
    requires tail != "" && tail[0] == '{'
    ensures Decode(GLOBAL_PREFIX + "::" + tail) ==
            match DecodeTagged(tail)
            case None => NoId
            case Some(Tagged(ns, body, sharded)) => ValueId(ns, body, sharded)
  {
    CutAtSeparator(GLOBAL_PREFIX, tail);
  }

  lemma DecodePlain(ns: string, key: string)
    requires GoodPlainNs(ns)
    ensures Decode(NonAliasKey(ns, key)) == PlainId(ns, key)
  {
    DecodeBehind(NonAliasKey(ns, key), ns, key);
  }

  lemma DecodeValue(ns: string, pk: string, sharded: bool)
    requires GoodNs(ns)
    ensures Decode(ValueKey(ns, pk, sharded)) == ValueId(ns, pk, sharded)
  {
    var tail := TaggedTail(ns, pk, sharded);
    assert ValueKey(ns, pk, sharded) == GLOBAL_PREFIX + "::" + tail;
    DecodeTaggedTail(tail);
    TaggedRoundTrip(ns, pk, sharded);
  }

  lemma DecodeMembers(ns: string, pk: string, sharded: bool)
    requires GoodNs(ns)
    ensures Decode(MembersKey(ns, pk, sharded)) == MembersId(ns, pk, sharded)
  {
    var tail := TaggedTail(ns, pk, sharded);
    assert MembersKey(ns, pk, sharded) == GLOBAL_PREFIX + "::" + (MEMB_SEG + "::" + tail);
    DecodeBehind(MembersKey(ns, pk, sharded), MEMB_SEG, tail);
    TaggedRoundTrip(ns, pk, sharded);
  }

  lemma DecodePointer(ns: string, field: string, value: string, sharded: bool)
    requires GoodNs(ns) && GoodField(field)
    ensures Decode(PointerKey(ns, field, value, sharded)) == PointerId(ns, field, value, sharded)
  {
    var body := field + "::" + value;
    var tail := TaggedTail(ns, body, sharded);
    assert PointerKey(ns, field, value, sharded) == GLOBAL_PREFIX + "::" + (GRP_SEG + "::" + tail);
    DecodeBehind(PointerKey(ns, field, value, sharded), GRP_SEG, tail);
    TaggedRoundTrip(ns, body, sharded);
    CutAtSeparator(field, value);
  }

  /** Every well-formed key of every namespace and mode reads back as itself, so the four
      families are pairwise disjoint and injective in all their arguments. */
  lemma DecodeEncode(id: KeyId)
    requires Good(id)
    ensures Decode(Encode(id)) == id
  {
    match id
    case PlainId(ns, key) => DecodePlain(ns, key);
    case ValueId(ns, pk, sharded) => DecodeValue(ns, pk, sharded);
    case MembersId(ns, pk, sharded) => DecodeMembers(ns, pk, sharded);
    case PointerId(ns, field, value, sharded) => DecodePointer(ns, field, value, sharded);
  }

  /** No two different well-formed keys share a string. */
  lemma EncodeInjective(a: KeyId, b: KeyId)
    requires Good(a) && Good(b)
    ensures Encode(a) == Encode(b) <==> a == b
  {
    DecodeEncode(a);
    DecodeEncode(b);
  }

  /** PrimaryFromValueKey is the two-sided inverse of ValueKey. */
  lemma ValueKeyInverse(ns: string, key: string, sharded: bool, pk: string)
    ensures PrimaryFromValueKey(ns, key, sharded) == Some(pk) <==> key == ValueKey(ns, pk, sharded)
  {
    WrappedInverse(ValueMatch(ns, "", sharded), key, pk);
    var m := ValueMatch(ns, "", sharded);
    assert m.prefix + pk + m.suffix == ValueKey(ns, pk, sharded);
  }

  lemma MembersKeyInverse(ns: string, key: string, sharded: bool, pk: string)
    ensures PrimaryFromMembersKey(ns, key, sharded) == Some(pk) <==> key == MembersKey(ns, pk, sharded)
  {
    WrappedInverse(MembersMatch(ns, "", sharded), key, pk);
    var m := MembersMatch(ns, "", sharded);
    assert m.prefix + pk + m.suffix == MembersKey(ns, pk, sharded);
  }

  lemma WrappedInverse(m: Match, key: string, body: string)
    ensures PrimaryOf(m, key) == Some(body) <==> key == m.prefix + body + m.suffix
  {
    if key == m.prefix + body + m.suffix {
      assert key[|key| - |m.suffix|..] == m.suffix;
      assert key[|m.prefix|..|key| - |m.suffix|] == body;
    }
    if PrimaryOf(m, key) == Some(body) {
      assert key == key[..|m.prefix|] + key[|m.prefix|..|key| - |m.suffix|] + key[|key| - |m.suffix|..];
    }
  }

  /** A prefix match selects exactly the records whose primary has the prefix. */
  lemma MatchSelectsPrefix(ns: string, pk: string, pkPrefix: string, sharded: bool)
    ensures ValueMatch(ns, pkPrefix, sharded).Contains(ValueKey(ns, pk, sharded)) <==> pkPrefix <= pk
    ensures MembersMatch(ns, pkPrefix, sharded).Contains(MembersKey(ns, pk, sharded)) <==> pkPrefix <= pk
  {
    ValueMatchSelectsPrefix(ns, pk, pkPrefix, sharded);
    MembersMatchSelectsPrefix(ns, pk, pkPrefix, sharded);
  }

  lemma ValueMatchSelectsPrefix(ns: string, pk: string, pkPrefix: string, sharded: bool)
    ensures ValueMatch(ns, pkPrefix, sharded).Contains(ValueKey(ns, pk, sharded)) <==> pkPrefix <= pk
  {
    var m := ValueMatch(ns, "", sharded);
    WrappedPrefix(m.prefix, pkPrefix, pk, m.suffix);
    assert m.prefix + pk + m.suffix == ValueKey(ns, pk, sharded);
    assert ValueMatch(ns, pkPrefix, sharded).prefix == m.prefix + pkPrefix;
  }

  lemma MembersMatchSelectsPrefix(ns: string, pk: string, pkPrefix: string, sharded: bool)
    ensures MembersMatch(ns, pkPrefix, sharded).Contains(MembersKey(ns, pk, sharded)) <==> pkPrefix <= pk
  {
    var m := MembersMatch(ns, "", sharded);
    WrappedPrefix(m.prefix, pkPrefix, pk, m.suffix);
    assert m.prefix + pk + m.suffix == MembersKey(ns, pk, sharded);
    assert MembersMatch(ns, pkPrefix, sharded).prefix == m.prefix + pkPrefix;
  }

  lemma WrappedPrefix(head: string, pre: string, body: string, tail: string)
    ensures Match(head + pre, tail).Contains(head + body + tail) <==> pre <= body
  {
    var key := head + body + tail;
    assert key[|key| - |tail|..] == tail;
    if |pre| <= |body| {
      assert key[..|head| + |pre|] == head + body[..|pre|];
      if head + pre <= key {
        assert pre == (head + pre)[|head|..] == key[..|head| + |pre|][|head|..] == body[..|pre|];
      }
    }
  }

  /** A plain-cache prefix selects exactly that namespace's keys with the prefix,
      and never a key of an alias group. */
  lemma PlainPrefixSelects(ns: string, keyPrefix: string, id: KeyId)
    requires GoodPlainNs(ns) && Good(id)
    ensures NonAliasKeyPrefix(ns, keyPrefix) <= Encode(id)
       <==> id.PlainId? && id.ns == ns && keyPrefix <= id.key
  {
    var pre := NonAliasKeyPrefix(ns, keyPrefix);
    var key := Encode(id);
    if pre <= key {
      var rest := key[|pre|..];
      assert key == pre + rest == NonAliasKey(ns, keyPrefix + rest);
      EncodeInjective(id, PlainId(ns, keyPrefix + rest));
    }
    if id.PlainId? && id.ns == ns && keyPrefix <= id.key {
      assert key == pre + id.key[|keyPrefix|..];
    }
  }
}
