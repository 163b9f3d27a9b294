/** The adaptive string dictionary: bounded, first-in first-out, with 16-bit ids that wrap around. */
module Dictionary {
  import opened Wire

  type Str = seq<byte>

  datatype Config = Config(enabled: bool, strings: bool, maxEntries: nat) {
    predicate Active() { enabled && strings }

    function Normal(): Config { if maxEntries == 0 then this.(maxEntries := 1) else this }
  }

  /** `id++` on 16 bits. */
  function Next(id: u16): u16 { if id == 65535 then 0 else id + 1 }

  /** The id issued `back` steps before `next`. */
  function Back(next: u16, back: nat): u16
    requires back <= 65535
  {
    if back <= next then next - back else next - back + 65536
  }

  datatype Outcome = Found(id: u16, value: Str) | Miss | Full

  datatype Dict = Dict(config: Config, nextId: u16, idOf: map<Str, u16>, valueOf: map<u16, Str>, order: seq<u16>) {
    function Size(): nat { |idOf| }

    function EvictOldest(): Dict
    {
      if order == [] then this
      else if order[0] !in valueOf then this.(order := order[1..])
      else this.(order := order[1..], idOf := idOf - {valueOf[order[0]]}, valueOf := valueOf - {order[0]})
    }

    /** Evict until the limit is met. */
    function Shrink(): Dict
      decreases |order|
    {
      if Size() <= config.maxEntries || order == [] then this else EvictOldest().Shrink()
    }

    /** Evicting meets the limit; where it does not, the original goes on with nothing left to evict. */
    predicate ShrinkEnds() { Shrink().Size() <= config.maxEntries }

    /** It does while the maps and the order agree. */
    lemma CoherentEnds()
      requires Coherent() && config.maxEntries >= 1
      ensures ShrinkEnds()
    {
      ShrinkKeeps();
    }

    function CreateOrGet(value: Str): (Dict, Outcome)
    {
      if value in idOf then (this, Found(idOf[value], value))
      else
        var room := if Size() >= config.maxEntries then EvictOldest() else this;
        if room.Size() >= config.maxEntries then (room, Full)
        else (room.Insert(value), Found(room.nextId, value))
    }

    function Insert(value: Str): Dict
    {
      this.(nextId := Next(nextId), idOf := idOf[value := nextId], valueOf := valueOf[nextId := value],
            order := order + [nextId])
    }

    function LookupId(value: Str): Option<u16> { if value in idOf then Some(idOf[value]) else None }

    function LookupValue(id: u16): Option<Str> { if id in valueOf then Some(valueOf[id]) else None }

    function Reset(): Dict { Dict(config, 1, map[], map[], []) }

    ghost predicate MutualInverse() { Inverse(idOf, valueOf) }

    /** The insertion order lists the live ids, consecutive modulo 65536 and ending just before `nextId`. */
    ghost predicate Coherent()
    {
      MutualInverse() && |idOf| == |order| && Consecutive(order, nextId) && Lists(order, valueOf)
    }

    ghost predicate Inv()
    {
      Coherent() && 1 <= config.maxEntries <= 65535 && |order| <= config.maxEntries
    }

    lemma EvictOldestKeeps()
      requires Coherent()
      ensures var d := EvictOldest(); d.Coherent() && d.config == config && d.nextId == nextId
      ensures var d := EvictOldest(); d.order == (if order == [] then [] else order[1..])
      ensures var d := EvictOldest(); d.idOf.Keys <= idOf.Keys
    {
      if order != [] {
        assert order[0] in valueOf;
        RemoveKeepsInverse(idOf, valueOf, order[0]);
        RemoveSize(idOf, valueOf[order[0]]);
        PopKeepsList(order, valueOf, nextId);
      }
    }

    lemma InsertKeeps(value: Str)
      requires Coherent() && value !in idOf && |order| < 65535
      ensures Insert(value).Coherent()
    {
      assert nextId !in valueOf by { NextIsFresh(order, nextId); }
      assert Inverse(idOf[value := nextId], valueOf[nextId := value]) by {
        InsertKeepsInverse(idOf, valueOf, nextId, value);
      }
      PushKeepsList(order, valueOf, nextId, value);
      InsertSize(idOf, value, nextId);
    }

    /**
     * `create_or_get` keeps the invariant, always succeeds, binds the string to the returned id in both
     * directions, changes nothing on a hit, and drops only the oldest entry on a miss in a full dictionary.
     */
    lemma CreateOrGetKeeps(value: Str)
      requires Inv()
      ensures var (d, r) := CreateOrGet(value);
        && d.Inv() && d.config == config
        && r.Found? && d.LookupId(value) == Some(r.id) && d.LookupValue(r.id) == Some(value)
        && (value in idOf ==> d == this)
        && (value !in idOf ==> r.id == nextId)
        && (value !in idOf ==>
              d.order == (if |order| == config.maxEntries then order[1..] else order) + [nextId])
    {
      if value !in idOf && |order| == config.maxEntries {
        EvictOldestKeeps();
        assert value !in EvictOldest().idOf;
        EvictOldest().InsertKeeps(value);
      } else if value !in idOf {
        InsertKeeps(value);
      }
    }

    /** Shrinking keeps the invariant; the entries that survive are exactly the newest ones. */
    lemma {:induction false} ShrinkKeeps()
      requires Coherent()
      ensures var d := Shrink();
        && d.Coherent() && d.config == config && d.nextId == nextId
        && d.order == Newest(order, config.maxEntries)
      decreases |order|
    {
      if Size() > config.maxEntries {
        var d := EvictOldest();
        EvictOldestKeeps();
        d.ShrinkKeeps();
        assert Newest(d.order, config.maxEntries) == Newest(order, config.maxEntries);
      }
    }

    lemma {:induction false} ShrinkKeepsValues(i: u16)
      ensures var d := Shrink(); i in d.valueOf ==> i in valueOf && d.valueOf[i] == valueOf[i]
      decreases |order|
    {
      if Size() > config.maxEntries && order != [] { EvictOldest().ShrinkKeepsValues(i); }
    }

    lemma ResetKeeps()
      requires 1 <= config.maxEntries <= 65535
      ensures Reset().Inv()
    {
    }

    /** A reset forgets every string and every id, keeps the configuration, and begins again with id 1. */
    lemma ResetForgets(value: Str, id: u16)
      ensures var d := Reset();
        && d.config == config && d.Size() == 0 && d.order == []
        && d.LookupId(value) == None && d.LookupValue(id) == None
        && (config.maxEntries >= 1 ==> d.CreateOrGet(value).1 == Found(1, value))
    {
    }

    function Update(id: u16, value: Str): Dict
      requires id in valueOf
    {
      this.(idOf := (idOf - {valueOf[id]})[value := id], valueOf := valueOf[id := value])
    }

    function Evict(id: u16): Dict
      requires id in valueOf
    {
      this.(idOf := idOf - {valueOf[id]}, valueOf := valueOf - {id}, order := Without(order, id))
    }

    /** Renaming an entry keeps the two maps inverse exactly when no other entry already has the new string. */
    lemma UpdateKeepsInverse(id: u16, value: Str)
      requires Coherent() && id in valueOf
      ensures Update(id, value).MutualInverse() <==> (value !in idOf || idOf[value] == id)
    {
      var d := Update(id, value);
      if value in idOf && idOf[value] != id {
        var other := idOf[value];
        assert other in d.valueOf && d.valueOf[other] == value;
      }
    }

    lemma EvictKeepsInverse(id: u16)
      requires Coherent() && id in valueOf
      ensures Evict(id).MutualInverse()
    {
    }
  }

  ghost predicate Inverse(idOf: map<Str, u16>, valueOf: map<u16, Str>)
  {
    && (forall s :: s in idOf ==> idOf[s] in valueOf && valueOf[idOf[s]] == s)
    && (forall i :: i in valueOf ==> valueOf[i] in idOf && idOf[valueOf[i]] == i)
  }

  ghost predicate Consecutive(order: seq<u16>, next: u16)
  {
    |order| <= 65535 && forall k :: 0 <= k < |order| ==> order[k] == Back(next, |order| - k)
  }

  ghost predicate Lists(order: seq<u16>, valueOf: map<u16, Str>)
  {
    forall i :: i in valueOf <==> i in order
  }

  lemma RemoveKeepsInverse(idOf: map<Str, u16>, valueOf: map<u16, Str>, id: u16)
    requires Inverse(idOf, valueOf) && id in valueOf
    ensures Inverse(idOf - {valueOf[id]}, valueOf - {id})
  {
  }

  lemma InsertKeepsInverse(idOf: map<Str, u16>, valueOf: map<u16, Str>, id: u16, value: Str)
    requires Inverse(idOf, valueOf) && id !in valueOf && value !in idOf
    ensures Inverse(idOf[value := id], valueOf[id := value])
  {
  }

  lemma RemoveSize<K, V>(m: map<K, V>, k: K)
    requires k in m
    ensures |m - {k}| == |m| - 1
  {
    assert (m - {k}).Keys == m.Keys - {k};
  }

  lemma InsertSize<K, V>(m: map<K, V>, k: K, v: V)
    requires k !in m
    ensures |m[k := v]| == |m| + 1
  {
    assert m[k := v].Keys == m.Keys + {k};
  }

  lemma NextIsFresh(order: seq<u16>, next: u16)
    requires Consecutive(order, next)
    ensures next !in order
    ensures forall j, k :: 0 <= j < k < |order| ==> order[j] != order[k]
  {
  }

  lemma PopKeepsList(order: seq<u16>, valueOf: map<u16, Str>, next: u16)
    requires Consecutive(order, next) && Lists(order, valueOf) && order != []
    ensures Consecutive(order[1..], next) && Lists(order[1..], valueOf - {order[0]})
  {
    NextIsFresh(order, next);
    assert forall i :: i in order <==> i == order[0] || i in order[1..];
  }

  lemma PushKeepsList(order: seq<u16>, valueOf: map<u16, Str>, next: u16, value: Str)
    requires Consecutive(order, next) && Lists(order, valueOf) && |order| < 65535
    ensures Consecutive(order + [next], Next(next)) && Lists(order + [next], valueOf[next := value])
  {
  }

  function Newest(ids: seq<u16>, n: nat): seq<u16> { if |ids| <= n then ids else ids[|ids| - n..] }

  function Without(ids: seq<u16>, id: u16): seq<u16>
  {
    if ids == [] then [] else if ids[0] == id then ids[1..] else [ids[0]] + Without(ids[1..], id)
  }

  lemma WithoutStep(ids: seq<u16>, id: u16, k: nat)
    requires k < |ids|
    ensures ids[..k] + Without(ids[k..], id)
      == if ids[k] == id then ids[..k] + ids[k + 1..] else ids[..k + 1] + Without(ids[k + 1..], id)
  {
    assert ids[k..][1..] == ids[k + 1..] && ids[..k + 1] == ids[..k] + [ids[k]];
  }

  // Runs.

  datatype Op = Configure(config: Config) | Intern(value: Str) | Clear

  function Apply(d: Dict, op: Op): (Dict, Option<Outcome>)
  {
    match op
    case Configure(c) => (d.(config := c.Normal()).Shrink(), None)
    case Intern(value) => var (next, r) := d.CreateOrGet(value); (next, Some(r))
    case Clear => (d.Reset(), None)
  }

  /** The state and the outcomes of a run. */
  function Run(d: Dict, ops: seq<Op>): (Dict, seq<Option<Outcome>>)
    decreases |ops|
  {
    if ops == [] then (d, [])
    else
      var (next, r) := Apply(d, ops[0]);
      var (last, rest) := Run(next, ops[1..]);
      (last, [r] + rest)
  }

  lemma ApplyKeeps(d: Dict, op: Op)
    requires d.Inv() && (op.Configure? ==> op.config.maxEntries <= 65535)
    ensures Apply(d, op).0.Inv() && Apply(d, op).1 != Some(Full)
  {
    match op
    case Configure(c) =>
      var wider := d.(config := c.Normal());
      assert wider.Coherent();
      wider.ShrinkKeeps();
    case Intern(value) => d.CreateOrGetKeeps(value);
    case Clear => d.(config := d.config).ResetKeeps();
  }

  /**
   * Over every run of configurations, insertions and resets with limits of at most 65535 the maps stay inverse, the
   * order lists exactly the live ids, consecutive modulo 65536 up to the next one, the size keeps to the limit, and
   * an insertion never finds the dictionary full.
   */
  lemma {:induction false} RunKeeps(d: Dict, ops: seq<Op>)
    requires d.Inv()
    requires forall i :: 0 <= i < |ops| && ops[i].Configure? ==> ops[i].config.maxEntries <= 65535
    ensures var (last, outcomes) := Run(d, ops);
      last.Inv() && |outcomes| == |ops| && Some(Full) !in outcomes
    decreases |ops|
  {
    if ops != [] {
      ApplyKeeps(d, ops[0]);
      hide Apply, Dict.Inv;
      RunKeeps(Apply(d, ops[0]).0, ops[1..]);
    }
  }

  function Empty(config: Config): Dict { Dict(config, 1, map[], map[], []) }

  // The ids that are issued.

  /** Id 1 comes first and 65535 is followed by 0. */
  function IssuedId(k: nat): u16 { (1 + k) % 65536 }

  predicate NoneTwice(values: seq<Str>)
  {
    forall i, j :: 0 <= i < j < |values| ==> values[i] != values[j]
  }

  /** The dictionary holds exactly the strings from index `first` on, under their own ids. */
  ghost predicate HoldsFrom(d: Dict, values: seq<Str>, first: nat)
  {
    && (forall k :: first <= k < |values| ==> d.LookupId(values[k]) == Some(IssuedId(k)))
    && (forall k :: first <= k < |values| ==> d.LookupValue(IssuedId(k)) == Some(values[k]))
    && (forall v :: v in d.idOf ==> exists k :: first <= k < |values| && values[k] == v)
  }

  /** It holds the newest of them, as many as its limit allows. */
  ghost predicate HoldsNewest(d: Dict, values: seq<Str>)
  {
    var held := if |values| <= d.config.maxEntries then |values| else d.config.maxEntries;
    d.nextId == IssuedId(|values|) && |d.order| == held && HoldsFrom(d, values, |values| - held)
  }

  /** Interns all the strings, in order; the ids that were given. */
  function InternAll(d: Dict, values: seq<Str>): (Dict, seq<Outcome>)
    decreases |values|
  {
    if values == [] then (d, [])
    else
      var last := |values| - 1;
      var (before, given) := InternAll(d, values[..last]);
      var (after, r) := before.CreateOrGet(values[last]);
      (after, given + [r])
  }

  lemma IdsApart(j: nat, k: nat)
    requires j < k <= j + 65535
    ensures IssuedId(j) != IssuedId(k)
  {
  }

  lemma IdBefore(n: nat, back: nat)
    requires back <= n && back <= 65535
    ensures Back(IssuedId(n), back) == IssuedId(n - back) && Next(IssuedId(n)) == IssuedId(n + 1)
  {
  }

  /** The oldest of the strings held is the first in the order. */
  lemma OldestHeld(d: Dict, values: seq<Str>)
    requires d.Inv() && HoldsNewest(d, values) && d.order != []
    ensures |d.order| <= |values| && d.order[0] == IssuedId(|values| - |d.order|)
    ensures d.LookupValue(d.order[0]) == Some(values[|values| - |d.order|])
  {
    IdBefore(|values|, |d.order|);
    hide IssuedId, Next, Back;
  }

  /** Dropping the oldest leaves the others where they were. */
  lemma HeldAfterEviction(d: Dict, values: seq<Str>, first: nat)
    requires HoldsFrom(d, values, first) && first < |values| <= first + 65535 && NoneTwice(values)
    requires d.order != [] && d.order[0] == IssuedId(first)
    ensures HoldsFrom(d.EvictOldest(), values, first + 1)
  {
    var e := d.EvictOldest();
    forall k | first < k < |values| ensures IssuedId(k) != d.order[0] { IdsApart(first, k); }
    hide IssuedId;
    assert d.LookupValue(d.order[0]) == Some(values[first]);
    forall v | v in e.idOf ensures exists k :: first + 1 <= k < |values| && values[k] == v {
      var k :| first <= k < |values| && values[k] == v;
      assert k != first;
    }
  }

  lemma HeldAfterInsert(d: Dict, values: seq<Str>, value: Str, first: nat)
    requires HoldsFrom(d, values, first) && first <= |values| <= first + 65535
    requires value !in values && d.nextId == IssuedId(|values|)
    ensures HoldsFrom(d.Insert(value), values + [value], first)
  {
    hide *;
    forall k | first <= k <= |values|
      ensures d.Insert(value).LookupId((values + [value])[k]) == Some(IssuedId(k))
      ensures d.Insert(value).LookupValue(IssuedId(k)) == Some((values + [value])[k])
    {
      HeldAt(d, values, value, first, k);
    }
    forall v | v in d.Insert(value).idOf
      ensures exists k :: first <= k < |values| + 1 && (values + [value])[k] == v
    {
      HeldIsOneOf(d, values, value, first, v);
    }
    HoldsIs(d.Insert(value), values + [value], first);
  }

  lemma HoldsIs(d: Dict, values: seq<Str>, first: nat)
    requires forall k :: first <= k < |values| ==> d.LookupId(values[k]) == Some(IssuedId(k))
    requires forall k :: first <= k < |values| ==> d.LookupValue(IssuedId(k)) == Some(values[k])
    requires forall v :: v in d.idOf ==> exists k :: first <= k < |values| && values[k] == v
    ensures HoldsFrom(d, values, first)
  {
    hide IssuedId, Dict.LookupId, Dict.LookupValue;
  }

  lemma HeldAt(d: Dict, values: seq<Str>, value: Str, first: nat, k: nat)
    requires HoldsFrom(d, values, first) && first <= k <= |values| <= first + 65535
    requires value !in values && d.nextId == IssuedId(|values|)
    ensures d.Insert(value).LookupId((values + [value])[k]) == Some(IssuedId(k))
    ensures d.Insert(value).LookupValue(IssuedId(k)) == Some((values + [value])[k])
  {
    if k < |values| {
      IdsApart(k, |values|);
      hide IssuedId;
      assert d.LookupId(values[k]) == Some(IssuedId(k)) && d.LookupValue(IssuedId(k)) == Some(values[k]);
    }
  }

  lemma HeldIsOneOf(d: Dict, values: seq<Str>, value: Str, first: nat, v: Str)
    requires HoldsFrom(d, values, first) && first <= |values| && v in d.Insert(value).idOf
    ensures exists k :: first <= k < |values| + 1 && (values + [value])[k] == v
  {
    hide IssuedId, Dict.LookupId, Dict.LookupValue;
    if v == value {
      assert (values + [value])[|values|] == v;
    } else {
      var k :| first <= k < |values| && values[k] == v;
      assert (values + [value])[k] == v;
    }
  }

  lemma NotHeld(d: Dict, values: seq<Str>, value: Str)
    requires HoldsNewest(d, values) && value !in values
    ensures value !in d.idOf
  {
    hide IssuedId, Dict.LookupId, Dict.LookupValue;
  }

  lemma InsertedInto(d: Dict, value: Str)
    requires d.Inv() && value !in d.idOf
    ensures var full := |d.order| == d.config.maxEntries;
      var room := if full then d.EvictOldest() else d;
      d.CreateOrGet(value) == (room.Insert(value), Found(d.nextId, value)) && room.nextId == d.nextId
    ensures var e := d.CreateOrGet(value).0;
      && e.config == d.config && e.nextId == Next(d.nextId)
      && |e.order| == if |d.order| == d.config.maxEntries then |d.order| else |d.order| + 1
  {
    d.CreateOrGetKeeps(value);
    d.EvictOldestKeeps();
  }

  /** One more string, not yet met: it is given the next id and joins the strings held. */
  lemma OneMoreHeld(d: Dict, values: seq<Str>, value: Str)
    requires d.Inv() && HoldsNewest(d, values) && NoneTwice(values) && value !in values
    ensures var (e, r) := d.CreateOrGet(value);
      e.Inv() && e.config == d.config && HoldsNewest(e, values + [value]) && r == Found(IssuedId(|values|), value)
  {
    hide *;
    NotHeld(d, values, value);
    d.CreateOrGetKeeps(value);
    InsertedInto(d, value);
    HeldParts(d, values);
    var first := |values| - |d.order|;
    if |d.order| == d.config.maxEntries {
      OldestHeld(d, values);
      HeldAfterEviction(d, values, first);
      HeldAfterInsert(d.EvictOldest(), values, value, first + 1);
    } else {
      HeldAfterInsert(d, values, value, first);
    }
    HeldFrom(d, values, value, d.CreateOrGet(value).0);
  }

  lemma HeldParts(d: Dict, values: seq<Str>)
    requires d.Inv() && HoldsNewest(d, values)
    ensures 1 <= d.config.maxEntries <= 65535 && |d.order| <= |values| <= |values| - |d.order| + 65535
    ensures d.nextId == IssuedId(|values|) && HoldsFrom(d, values, |values| - |d.order|)
    ensures |d.order| == d.config.maxEntries ==> d.order != []
    ensures |d.order| == (if |values| <= d.config.maxEntries then |values| else d.config.maxEntries)
  {
    hide IssuedId, HoldsFrom;
  }

  lemma HeldFrom(d: Dict, values: seq<Str>, value: Str, e: Dict)
    requires |d.order| == (if |values| <= d.config.maxEntries then |values| else d.config.maxEntries)
    requires d.nextId == IssuedId(|values|) && e.config == d.config && e.nextId == Next(d.nextId)
    requires |e.order| == if |d.order| == d.config.maxEntries then |d.order| else |d.order| + 1
    requires HoldsFrom(e, values + [value],
      |values| - |d.order| + if |d.order| == d.config.maxEntries then 1 else 0)
    ensures HoldsNewest(e, values + [value])
  {
    IdBefore(|values|, 0);
    hide HoldsFrom, Next, IssuedId;
  }

  /**
   * An empty dictionary gives distinct strings the ids 1, 2, and so on modulo 65536 in the order they come, never finds
   * itself full, and ends with exactly the newest ones, as many as the limit allows.
   */
  lemma {:induction false} IssuedInOrder(config: Config, values: seq<Str>)
    requires 1 <= config.maxEntries <= 65535 && NoneTwice(values)
    ensures var (d, given) := InternAll(Empty(config), values);
      && d.Inv() && d.config == config && HoldsNewest(d, values)
      && |given| == |values| && forall k :: 0 <= k < |values| ==> given[k] == Found(IssuedId(k), values[k])
    decreases |values|
  {
    if values == [] {
      NothingIssued(config);
    } else {
      var last := |values| - 1;
      hide *;
      NoneTwiceBefore(values);
      IssuedInOrder(config, values[..last]);
      var (before, given) := InternAll(Empty(config), values[..last]);
      OneMoreHeld(before, values[..last], values[last]);
      InternLast(Empty(config), values);
      assert values == values[..last] + [values[last]];
      GivenLater(values, given, IssuedId(last));
    }
  }

  lemma GivenLater(values: seq<Str>, given: seq<Outcome>, id: u16)
    requires values != [] && |given| == |values| - 1 && id == IssuedId(|values| - 1)
    requires forall k :: 0 <= k < |values| - 1 ==> given[k] == Found(IssuedId(k), values[..|values| - 1][k])
    ensures var all := given + [Found(id, values[|values| - 1])];
      forall k :: 0 <= k < |values| ==> all[k] == Found(IssuedId(k), values[k])
  {
    hide IssuedId;
    var all, last := given + [Found(id, values[|values| - 1])], |values| - 1;
    forall k | 0 <= k < |values| ensures all[k] == Found(IssuedId(k), values[k]) {
      if k < last { assert values[..last][k] == values[k]; }
    }
  }

  lemma NothingIssued(config: Config)
    requires 1 <= config.maxEntries <= 65535
    ensures InternAll(Empty(config), []) == (Empty(config), []) && Empty(config).Inv()
    ensures HoldsNewest(Empty(config), [])
  {
  }

  lemma NoneTwiceBefore(values: seq<Str>)
    requires NoneTwice(values) && values != []
    ensures NoneTwice(values[..|values| - 1]) && values[|values| - 1] !in values[..|values| - 1]
  {
  }

  lemma InternLast(d: Dict, values: seq<Str>)
    requires values != []
    ensures var (before, given) := InternAll(d, values[..|values| - 1]);
      var (after, r) := before.CreateOrGet(values[|values| - 1]);
      InternAll(d, values) == (after, given + [r])
  {
    hide Dict.CreateOrGet;
  }

  class AdaptiveDictionary {
    var config: Config
    var nextId: u16
    var idOf: map<Str, u16>
    var valueOf: map<u16, Str>
    var order: seq<u16>

    function State(): Dict
      reads this
    {
      Dict(config, nextId, idOf, valueOf, order)
    }

    constructor ()
      ensures State() == Empty(Config(false, true, 256)) && State().Inv()
    {
      config, nextId, idOf, valueOf, order := Config(false, true, 256), 1, map[], map[], [];
    }

    method EvictOldestIfNeeded()
      modifies this
      ensures State() == old(State()).EvictOldest()
    {
      if order == [] { return; }
      var oldest := order[0];
      order := order[1..];
      if oldest !in valueOf { return; }
      idOf := idOf - {valueOf[oldest]};
      valueOf := valueOf - {oldest};
    }

    /** The loop ends only where evicting the oldest entries brings the size down to the limit. */
    method Configure(config: Config)
      requires State().(config := config.Normal()).ShrinkEnds()
      modifies this
      ensures State() == old(State()).(config := config.Normal()).Shrink()
    {
      this.config := config.Normal();
      while |idOf| > this.config.maxEntries
        invariant this.config == config.Normal()
        invariant State().Shrink() == old(State()).(config := config.Normal()).Shrink()
        decreases |order|
      {
        EvictOldestIfNeeded();
      }
    }

    method CreateOrGet(value: Str) returns (r: Outcome)
      modifies this
      ensures State() == old(State()).CreateOrGet(value).0 && r == old(State()).CreateOrGet(value).1
    {
      if value in idOf { return Found(idOf[value], value); }
      if |idOf| >= config.maxEntries { EvictOldestIfNeeded(); }
      if |idOf| >= config.maxEntries { return Full; }
      var id := nextId;
      nextId := Next(nextId);
      idOf, valueOf, order := idOf[value := id], valueOf[id := value], order + [id];
      return Found(id, value);
    }

    method LookupId(value: Str) returns (r: Option<u16>)
      ensures r == State().LookupId(value)
    {
      if value !in idOf { return None; }
      return Some(idOf[value]);
    }

    method LookupValue(id: u16) returns (r: Option<Str>)
      ensures r == State().LookupValue(id)
    {
      if id !in valueOf { return None; }
      return Some(valueOf[id]);
    }

    method Update(id: u16, value: Str) returns (ok: bool)
      modifies this
      ensures ok == (id in old(valueOf))
      ensures State() == if ok then old(State()).Update(id, value) else old(State())
    {
      if id !in valueOf { return false; }
      idOf := idOf - {valueOf[id]};
      valueOf := valueOf[id := value];
      idOf := idOf[value := id];
      return true;
    }

    method Evict(id: u16) returns (ok: bool)
      modifies this
      ensures ok == (id in old(valueOf))
      ensures State() == if ok then old(State()).Evict(id) else old(State())
    {
      if id !in valueOf { return false; }
      idOf := idOf - {valueOf[id]};
      valueOf := valueOf - {id};
      RemoveFromOrder(id);
      return true;
    }

    /** Takes the id out of the insertion order, where it stands at most once. */
    method RemoveFromOrder(id: u16)
      modifies `order
      ensures order == Without(old(order), id)
    {
      var k := 0;
      while k < |order|
        invariant k <= |order| && order == old(order)
        invariant Without(order, id) == order[..k] + Without(order[k..], id)
      {
        WithoutStep(order, id, k);
        hide Without;
        if order[k] == id {
          order := order[..k] + order[k + 1..];
          return;
        }
        k := k + 1;
      }
    }

    method Reset()
      modifies this
      ensures State() == old(State()).Reset()
    {
      idOf, valueOf, order, nextId := map[], map[], [], 1;
    }
  }
}
