/** The part of Redis the scripts use: typed cells with an optional expiry, read at a clock.
    A cell past its expiry is unobservable, so moving the clock drops it. */
module Redis {
  import opened Basics
  import opened Expiries

  datatype Value = Str(s: string) | Hash(h: map<string, string>)

  datatype Cell = Cell(val: Value, exp: Option<int>)

  type Cells = map<string, Cell>

  function Purge(c: Cells, now: int): Cells {
    c - (set k | k in c && !LiveAt(c[k].exp, now))
  }

  /** GET */
  function StrAt(c: Cells, k: string): Option<string> {
    if k in c && c[k].val.Str? then Some(c[k].val.s) else None
  }

  /** HGETALL; a missing key is an empty hash. */
  function FieldsAt(c: Cells, k: string): map<string, string> {
    if k in c && c[k].val.Hash? then c[k].val.h else map[]
  }

  /** HGET */
  function FieldAt(c: Cells, k: string, f: string): Option<string> {
    if f in FieldsAt(c, k) then Some(FieldsAt(c, k)[f]) else None
  }

  /** HSET: a new hash has no expiry, an existing one keeps its own. */
  function WithField(c: Cells, k: string, f: string, v: string): Cells {
    c[k := Cell(Hash(FieldsAt(c, k)[f := v]), if k in c then c[k].exp else None)]
  }

  /** HDEL: removing the last field removes the key. */
  function WithoutField(c: Cells, k: string, f: string): Cells {
    if f !in FieldsAt(c, k) then c
    else if FieldsAt(c, k) - {f} == map[] then c - {k}
    else c[k := Cell(Hash(FieldsAt(c, k) - {f}), c[k].exp)]
  }

  /** PEXPIRE or PERSIST; a missing key stays missing. */
  function WithExpiry(c: Cells, k: string, exp: Option<int>): Cells {
    if k in c then c[k := c[k].(exp := exp)] else c
  }

  /** all lists the fields of h, each once, in whatever order the server chose. */
  ghost predicate Lists(all: seq<(string, string)>, h: map<string, string>) {
    && (forall f, v :: (f, v) in all <==> f in h && h[f] == v)
    && (forall i, j :: 0 <= i < j < |all| ==> all[i] != all[j])
  }

  /** One Redis server. Commands act on live cells only; a command on a key of the wrong
      type is an error in Redis, so each command demands the right one. */
  class Server {
    var cells: Cells
    var now: int

    constructor ()
      ensures cells == map[] && now == 0
    {
      cells := map[];
      now := 0;
    }

    method AdvanceTo(time: int)
      requires now <= time
      modifies this
      ensures now == time && cells == Purge(old(cells), time)
    {
      now := time;
      cells := Purge(cells, time);
    }

    method Get(k: string) returns (r: Option<string>)
      requires k in cells ==> cells[k].val.Str?
      ensures r == StrAt(cells, k)
    {
      r := if k in cells then Some(cells[k].val.s) else None;
    }

    method Set(k: string, s: string, ttl: int)
      modifies this`cells
      ensures cells == old(cells)[k := Cell(Str(s), Expiry(now, ttl))]
    {
      cells := cells[k := Cell(Str(s), Expiry(now, ttl))];
    }

    /** Replies with the number of keys removed. */
    method Del(k: string) returns (n: nat)
      modifies this`cells
      ensures cells == old(cells) - {k}
      ensures n == if k in old(cells) then 1 else 0
    {
      n := if k in cells then 1 else 0;
      cells := cells - {k};
    }

    method HGet(k: string, f: string) returns (r: Option<string>)
      requires k in cells ==> cells[k].val.Hash?
      ensures r == FieldAt(cells, k, f)
    {
      r := if k in cells && f in cells[k].val.h then Some(cells[k].val.h[f]) else None;
    }

    method HSet(k: string, f: string, v: string)
      requires k in cells ==> cells[k].val.Hash?
      modifies this`cells
      ensures cells == WithField(old(cells), k, f, v)
    {
      cells := WithField(cells, k, f, v);
    }

    method HDel(k: string, f: string)
      requires k in cells ==> cells[k].val.Hash?
      modifies this`cells
      ensures cells == WithoutField(old(cells), k, f)
    {
      cells := WithoutField(cells, k, f);
    }

    method HGetAll(k: string) returns (all: seq<(string, string)>)
      requires k in cells ==> cells[k].val.Hash?
      ensures Lists(all, FieldsAt(cells, k))
    {
      var h := FieldsAt(cells, k);
      var rest := h.Keys;
      all := [];
      while rest != {}
        invariant rest <= h.Keys
        invariant forall f, v :: (f, v) in all <==> f in h && f !in rest && h[f] == v
        invariant forall i, j :: 0 <= i < j < |all| ==> all[i] != all[j]
      {
        var f :| f in rest;
        all := all + [(f, h[f])];
        rest := rest - {f};
      }
    }

    method PExpire(k: string, ttl: int)
      requires ttl > 0
      modifies this`cells
      ensures cells == WithExpiry(old(cells), k, Expiry(now, ttl))
    {
      cells := WithExpiry(cells, k, Expiry(now, ttl));
    }

    method Persist(k: string)
      modifies this`cells
      ensures cells == WithExpiry(old(cells), k, None)
    {
      cells := WithExpiry(cells, k, None);
    }
  }
}
