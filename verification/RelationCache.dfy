/**
  The hook-wide memo of tool calls and the relation data behind it. `relation_get` is memoised under
  the text of its call; `relation_set` drops every entry whose text mentions the local unit.
 */
module RelationCache {
  import opened Wrappers
  import opened JsonText

  type Bag = map<string, string>

  /** Relation data: by relation, then by unit. */
  type RelationData = map<string, map<string, Bag>>

  datatype Answer = Nothing | One(value: string) | All(bag: Bag)

  /** The parameters of `relation_get` after binding; calls that pass `app` are not read here. */
  datatype Params = Params(attribute: Argument, unit: Argument, rid: Argument)

  function Keyword(c: Call, name: string, i: nat): Argument
    decreases |c.kwargs| - i
  {
    if i >= |c.kwargs| then None
    else if c.kwargs[i].0 == name then c.kwargs[i].1
    else Keyword(c, name, i + 1)
  }

  function Bound(c: Call, position: nat, name: string): Argument {
    if position < |c.args| then c.args[position] else Keyword(c, name, 0)
  }

  function ParamsOf(c: Call): Params {
    Params(Bound(c, 0, "attribute"), Bound(c, 1, "unit"), Bound(c, 2, "rid"))
  }

  /** An empty string counts as no argument. */
  function Given(a: Argument): Argument {
    if a == Some("") then None else a
  }

  lemma {:induction false} KeywordIsPassed(c: Call, name: string, i: nat)
    requires Keyword(c, name, i).Some?
    ensures Passes(c, Keyword(c, name, i).value)
    decreases |c.kwargs| - i
  {
    if c.kwargs[i].0 != name {
      KeywordIsPassed(c, name, i + 1);
    }
  }

  /** What the hook runs in: its unit, the relation and remote unit of the event (the defaults of
      relation-get), and how relation names and numbers are resolved. */
  datatype Context = Context(localUnit: string, remoteUnit: Option<string>, relation: Argument -> string)

  function TargetUnit(x: Context, c: Call): Option<string> {
    var unit := Given(ParamsOf(c).unit);
    if unit.Some? then unit else x.remoteUnit
  }

  /** The attribute asked for; the tool takes a dash, like no attribute, for the whole bag. */
  function Wanted(c: Call): Option<string> {
    var attribute := Given(ParamsOf(c).attribute);
    if attribute == Some("-") then None else attribute
  }

  /** What relation-get answers when it is really run. */
  function Read(x: Context, data: RelationData, c: Call): Answer {
    var p := ParamsOf(c);
    var relation := x.relation(Given(p.rid));
    var unit := TargetUnit(x, c);
    if unit.None? || relation !in data || unit.value !in data[relation] then Nothing
    else
      var bag := data[relation][unit.value];
      var attribute := Wanted(c);
      if attribute.None? then All(bag)
      else if attribute.value in bag then One(bag[attribute.value]) else Nothing
  }

  /** The call passes `a` for the parameter: in its place, or by its name, or not at all, which is `None`. */
  predicate Supplies(c: Call, position: nat, name: string, a: Argument) {
    if position < |c.args| then c.args[position] == a
    else (name, a) in c.kwargs || (a == None && forall p :: p in c.kwargs ==> p.0 != name)
  }

  /** Python refuses a name twice. */
  predicate NamesOnce(c: Call) {
    forall i, j :: 0 <= i < j < |c.kwargs| ==> c.kwargs[i].0 != c.kwargs[j].0
  }

  lemma {:induction false} KeywordIs(c: Call, name: string, a: Argument, i: nat)
    requires NamesOnce(c) && i <= |c.kwargs|
    requires (name, a) in c.kwargs[i..] || (a == None && forall p :: p in c.kwargs[i..] ==> p.0 != name)
    ensures Keyword(c, name, i) == a
    decreases |c.kwargs| - i
  {
    if i < |c.kwargs| {
      assert c.kwargs[i..] == [c.kwargs[i]] + c.kwargs[i + 1..];
      if c.kwargs[i].0 != name {
        KeywordIs(c, name, a, i + 1);
      }
    }
  }

  lemma BoundIs(c: Call, position: nat, name: string, a: Argument)
    requires NamesOnce(c) && Supplies(c, position, name, a)
    ensures Bound(c, position, name) == a
  {
    if position >= |c.args| {
      assert c.kwargs[0..] == c.kwargs;
      KeywordIs(c, name, a, 0);
    }
  }

  /** The answer to being asked for attribute `k` of unit `u` on relation `r`. */
  function AnswerTo(x: Context, data: RelationData, k: Argument, u: Argument, r: Argument): Answer {
    var relation := x.relation(if r == Some("") then None else r);
    var unit := if u == None || u == Some("") then x.remoteUnit else u;
    if unit == None || relation !in data || unit.value !in data[relation] then Nothing
    else if k in {None, Some(""), Some("-")} then All(data[relation][unit.value])
    else if k.value in data[relation][unit.value] then One(data[relation][unit.value][k.value])
    else Nothing
  }

  /** What a call means: asked for attribute `k` of unit `u` on relation `r`, in whatever way these are
      passed, it answers the value there; without an attribute the whole bag; without a unit for the
      remote unit of the event; and nothing where there is nothing. */
  lemma ReadIs(x: Context, data: RelationData, c: Call, k: Argument, u: Argument, r: Argument)
    requires NamesOnce(c)
    requires Supplies(c, 0, "attribute", k) && Supplies(c, 1, "unit", u) && Supplies(c, 2, "rid", r)
    ensures Read(x, data, c) == AnswerTo(x, data, k, u, r)
  {
    BoundIs(c, 0, "attribute", k);
    BoundIs(c, 1, "unit", u);
    BoundIs(c, 2, "rid", r);
  }

  /** By position or by name, it is the same question. */
  lemma ByPositionOrByName(x: Context, data: RelationData, k: Argument, u: Argument, r: Argument)
    ensures Read(x, data, Call([k, u, r], [])) == AnswerTo(x, data, k, u, r)
    ensures Read(x, data, Call([], [("attribute", k), ("rid", r), ("unit", u)])) == AnswerTo(x, data, k, u, r)
    ensures Read(x, data, Call([k], [("unit", u)])) == AnswerTo(x, data, k, u, None)
  {
    ReadIs(x, data, Call([k, u, r], []), k, u, r);
    var named := Call([], [("attribute", k), ("rid", r), ("unit", u)]);
    assert named.kwargs[0] == ("attribute", k) && named.kwargs[1] == ("rid", r) && named.kwargs[2] == ("unit", u);
    ReadIs(x, data, named, k, u, r);
    var mixed := Call([k], [("unit", u)]);
    assert mixed.kwargs[0] == ("unit", u);
    ReadIs(x, data, mixed, k, u, None);
  }

  /** An answer through the memo, likewise, for calls that are covered. */
  lemma CoveredIff(x: Context, c: Call, u: Argument, app: Argument)
    requires NamesOnce(c) && Supplies(c, 1, "unit", u) && Supplies(c, 3, "app", app)
    ensures Covered(x, c) <==> app == None && ((u != None && u != Some("")) || x.remoteUnit != Some(x.localUnit))
  {
    BoundIs(c, 1, "unit", u);
    BoundIs(c, 3, "app", app);
  }

  /** The local unit's bag after relation-set: a setting of `None` removes the key. */
  function Merged(bag: Bag, settings: map<string, Argument>): Bag {
    map k | k in bag.Keys + settings.Keys && (k in settings ==> settings[k].Some?)
      :: if k in settings then settings[k].value else bag[k]
  }

  function Written(x: Context, data: RelationData, rid: Argument, settings: map<string, Argument>): RelationData {
    var relation := x.relation(rid);
    var units := if relation in data then data[relation] else map[];
    var bag := if x.localUnit in units then units[x.localUnit] else map[];
    data[relation := units[x.localUnit := Merged(bag, settings)]]
  }

  /** What a write does to the data: the local unit's bag on the relation has the new values, lacks what
      was set to `None` and keeps the rest; every other bag of every relation is as it was. */
  lemma WrittenIs(x: Context, data: RelationData, rid: Argument, settings: map<string, Argument>, r: string, u: string,
                  k: string)
    ensures var after := Written(x, data, rid, settings);
            var had := r in data && u in data[r] && k in data[r][u];
            var has := r in after && u in after[r] && k in after[r][u];
            if r == x.relation(rid) && u == x.localUnit && k in settings
            then has == settings[k].Some? && (has ==> after[r][u][k] == settings[k].value)
            else has == had && (had ==> after[r][u][k] == data[r][u][k])
    ensures var after := Written(x, data, rid, settings);
            r in after && u in after[r] <==> (r in data && u in data[r]) || (r == x.relation(rid) && u == x.localUnit)
  {
  }

  /** A read of unit data, that is without `app`, which names its unit or whose default unit is a remote one. */
  predicate Covered(x: Context, c: Call) {
    && Bound(c, 3, "app").None?
    && (Given(ParamsOf(c).unit).Some? || x.remoteUnit != Some(x.localUnit))
  }

  lemma LocalReadShows(x: Context, func: string, c: Call)
    requires IsPlain(x.localUnit) && Covered(x, c) && TargetUnit(x, c) == Some(x.localUnit)
    ensures Contains(Key(func, c), x.localUnit)
  {
    if 1 < |c.args| {
      assert c.args[1] == Some(x.localUnit);
    } else {
      KeywordIsPassed(c, "unit", 0);
    }
    KeyShows(func, c, x.localUnit);
  }

  /** Writing touches no answer but those about the local unit. */
  lemma WriteKeepsRemote(x: Context, data: RelationData, rid: Argument, settings: map<string, Argument>, c: Call)
    requires TargetUnit(x, c) != Some(x.localUnit)
    ensures Read(x, Written(x, data, rid, settings), c) == Read(x, data, c)
  {
  }

  /** A hook reads its own writes: a value that was set, nothing where `None` was set, and every other
      attribute as before. */
  lemma WriteIsRead(x: Context, data: RelationData, rid: Argument, settings: map<string, Argument>, c: Call)
    requires TargetUnit(x, c) == Some(x.localUnit)
    requires x.relation(Given(ParamsOf(c).rid)) == x.relation(rid)
    requires Wanted(c).Some?
    ensures var k := Wanted(c).value;
            Read(x, Written(x, data, rid, settings), c) ==
            if k !in settings then Read(x, data, c)
            else if settings[k].Some? then One(settings[k].value) else Nothing
  {
  }

  /** What a hook does with the relation. `Other` is a call of any other memoised function. */
  datatype Access =
    | Get(call: Call)
    | Set(rid: Argument, settings: map<string, Argument>)
    | Other(func: string, call: Call, result: Answer)

  function DataStep(x: Context, data: RelationData, a: Access): RelationData {
    if a.Set? then Written(x, data, a.rid, a.settings) else data
  }

  /** The data after some accesses, were nothing memoised. */
  function DataAfter(x: Context, data: RelationData, accesses: seq<Access>): RelationData {
    if accesses == [] then data
    else
      DataStep(x, DataAfter(x, data, accesses[..|accesses| - 1]), accesses[|accesses| - 1])
  }

  /** This access sets the attribute on the relation. */
  predicate SetsAttribute(x: Context, a: Access, relation: string, k: string) {
    a.Set? && x.relation(a.rid) == relation && k in a.settings
  }

  /** Over any sequence of accesses, a hook's read of its own attribute gives what the last write of that
      attribute on that relation has set, or nothing where it set `None`. */
  lemma {:induction false} LastWriteIsRead(x: Context, data: RelationData, accesses: seq<Access>, i: nat, c: Call)
    requires TargetUnit(x, c) == Some(x.localUnit) && Wanted(c).Some?
    requires var relation, k := x.relation(Given(ParamsOf(c).rid)), Wanted(c).value;
             && i < |accesses| && SetsAttribute(x, accesses[i], relation, k)
             && forall j :: i < j < |accesses| ==> !SetsAttribute(x, accesses[j], relation, k)
    ensures var written := accesses[i].settings[Wanted(c).value];
            Read(x, DataAfter(x, data, accesses), c) == if written.Some? then One(written.value) else Nothing
    decreases |accesses|
  {
    var rest, last := accesses[..|accesses| - 1], accesses[|accesses| - 1];
    var before := DataAfter(x, data, rest);
    var relation := x.relation(Given(ParamsOf(c).rid));
    if i < |rest| {
      LastWriteIsRead(x, data, rest, i, c);
      if last.Set? && x.relation(last.rid) == relation {
        WriteIsRead(x, before, last.rid, last.settings, c);
      }
    } else {
      WriteIsRead(x, before, last.rid, last.settings, c);
    }
  }

  /** The answer is what an unmemoised read of this data gives, if the access is a covered read. */
  predicate Answers(x: Context, data: RelationData, access: Access, a: Answer) {
    access.Get? && Covered(x, access.call) ==> a == Read(x, data, access.call)
  }

  class HookCache {
    const x: Context
    const self: string            // the text of relation_get as a function object
    var data: RelationData
    var cache: map<string, Answer>

    constructor (x: Context, self: string, data: RelationData)
      ensures this.x == x && this.self == self && this.data == data && cache == map[]
      ensures Coherent()
    {
      this.x, this.self, this.data, cache := x, self, data, map[];
    }

    /** Every memoised covered read is what relation-get would answer now. */
    ghost predicate Coherent()
      reads this
    {
      forall c: Call :: Key(self, c) in cache && Covered(x, c) ==> cache[Key(self, c)] == Read(x, data, c)
    }

    /** `relation_get` behind `cached`. */
    method RelationGet(c: Call) returns (a: Answer)
      requires Coherent()
      modifies this`cache
      ensures Coherent()
      ensures Covered(x, c) ==> a == Read(x, data, c)
      ensures forall k, u, r ::
                && NamesOnce(c) && Supplies(c, 0, "attribute", k) && Supplies(c, 1, "unit", u)
                && Supplies(c, 2, "rid", r) && Supplies(c, 3, "app", None)
                && (u !in {None, Some("")} || x.remoteUnit != Some(x.localUnit)) ==>
                  a == AnswerTo(x, data, k, u, r)
    {
      forall k, u, r
        | && NamesOnce(c) && Supplies(c, 0, "attribute", k) && Supplies(c, 1, "unit", u) && Supplies(c, 2, "rid", r)
          && Supplies(c, 3, "app", None) && (u !in {None, Some("")} || x.remoteUnit != Some(x.localUnit))
        ensures Covered(x, c) && Read(x, data, c) == AnswerTo(x, data, k, u, r)
      {
        CoveredIff(x, c, u, None);
        ReadIs(x, data, c, k, u, r);
      }
      var key := Key(self, c);
      if key in cache {
        return cache[key];
      }
      a := Read(x, data, c);
      cache := cache[key := a];
      forall d: Call | Key(self, d) == key ensures d == c {
        KeyInjective(self, d, self, c);
      }
    }

    /** Any other memoised function shares the cache without getting in the way. */
    method OtherCached(func: string, c: Call, result: Answer) returns (a: Answer)
      requires Coherent() && func != self
      modifies this`cache
      ensures Coherent()
    {
      var key := Key(func, c);
      if key in cache {
        return cache[key];
      }
      cache := cache[key := result];
      forall d: Call ensures Key(self, d) != key {
        if Key(self, d) == key {
          KeyInjective(self, d, func, c);
        }
      }
      return result;
    }

    /** `flush`: drop every entry whose key contains the text; first list them, then delete them. */
    method Flush(part: string)
      modifies this`cache
      ensures forall k :: k in cache <==> k in old(cache) && !Contains(k, part)
      ensures forall k :: k in cache ==> cache[k] == old(cache)[k]
    {
      var flushList: seq<string> := [];
      var keys := cache.Keys;
      while keys != {}
        invariant keys <= cache.Keys && cache == old(cache)
        invariant forall k :: k in flushList <==> k in cache && k !in keys && Contains(k, part)
        decreases keys
      {
        var k :| k in keys;
        var found := Finds(k, part);
        if found {
          flushList := flushList + [k];
        }
        keys := keys - {k};
      }
      for i := 0 to |flushList|
        invariant forall k :: k in cache <==> k in old(cache) && k !in flushList[..i]
        invariant forall k :: k in cache ==> cache[k] == old(cache)[k]
      {
        cache := cache - {flushList[i]};
        assert flushList[..i + 1] == flushList[..i] + [flushList[i]];
      }
      assert flushList[..|flushList|] == flushList;
    }

    /** `relation_set`: the write is visible to the tools at once; then the memo is flushed. */
    method RelationSet(rid: Argument, settings: map<string, Argument>)
      requires Coherent() && IsPlain(x.localUnit)
      modifies this
      ensures Coherent()
      ensures data == Written(x, old(data), rid, settings)
    {
      data := Written(x, data, rid, settings);
      Flush(x.localUnit);
      forall c: Call | Key(self, c) in cache && Covered(x, c) ensures cache[Key(self, c)] == Read(x, data, c) {
        if TargetUnit(x, c) == Some(x.localUnit) {
          LocalReadShows(x, self, c);
        } else {
          WriteKeepsRemote(x, old(data), rid, settings, c);
        }
      }
    }

    method Perform(access: Access) returns (a: Answer)
      requires Coherent() && IsPlain(x.localUnit)
      requires access.Other? ==> access.func != self
      modifies this
      ensures Coherent() && data == DataStep(x, old(data), access)
      ensures Answers(x, old(data), access, a)
    {
      match access {
        case Get(c) => a := RelationGet(c);
        case Set(rid, settings) =>
          a := Nothing;
          RelationSet(rid, settings);
        case Other(func, c, result) => a := OtherCached(func, c, result);
      }
    }

    /** A whole hook: in any sequence of writes and memoised reads, every covered read answers what an
        unmemoised one would have answered at that moment. */
    method RunAccesses(accesses: seq<Access>) returns (answers: seq<Answer>)
      requires Coherent() && IsPlain(x.localUnit)
      requires forall i :: 0 <= i < |accesses| && accesses[i].Other? ==> accesses[i].func != self
      modifies this
      ensures Coherent() && data == DataAfter(x, old(data), accesses)
      ensures |answers| == |accesses|
      ensures forall i :: 0 <= i < |accesses| ==> Faithful(x, old(data), accesses, i, answers[i])
    {
      answers := [];
      for i := 0 to |accesses|
        invariant Coherent() && data == DataAfter(x, old(data), accesses[..i])
        invariant AllFaithful(x, old(data), accesses, answers) && |answers| == i
      {
        DataAfterStep(x, old(data), accesses, i);
        var a := Perform(accesses[i]);
        MoreFaithful(x, old(data), accesses, answers, a);
        answers := answers + [a];
      }
      assert accesses[..|accesses|] == accesses;
    }
  }

  lemma DataAfterStep(x: Context, data: RelationData, accesses: seq<Access>, i: nat)
    requires i < |accesses|
    ensures DataAfter(x, data, accesses[..i + 1]) == DataStep(x, DataAfter(x, data, accesses[..i]), accesses[i])
  {
    assert accesses[..i + 1][..i] == accesses[..i];
  }

  lemma MoreFaithful(x: Context, data: RelationData, accesses: seq<Access>, answers: seq<Answer>, a: Answer)
    requires |answers| < |accesses| && AllFaithful(x, data, accesses, answers)
    requires Answers(x, DataAfter(x, data, accesses[..|answers|]), accesses[|answers|], a)
    ensures AllFaithful(x, data, accesses, answers + [a])
  {
  }

  predicate AllFaithful(x: Context, data: RelationData, accesses: seq<Access>, answers: seq<Answer>) {
    |answers| <= |accesses|
    && forall i :: 0 <= i < |answers| ==> Faithful(x, data, accesses, i, answers[i])
  }

  /** The i-th access, if it is a covered read, was answered from the data of that moment. */
  predicate Faithful(x: Context, data: RelationData, accesses: seq<Access>, i: nat, a: Answer)
    requires i < |accesses|
  {
    Answers(x, DataAfter(x, data, accesses[..i]), accesses[i], a)
  }

  /** Substring search. */
  method Finds(text: string, part: string) returns (found: bool)
    ensures found <==> Contains(text, part)
  {
    var i := 0;
    while i + |part| <= |text|
      invariant 0 <= i
      invariant forall j :: 0 <= j < i ==> !OccursAt(text, j, part)
      decreases |text| - i
    {
      if OccursAt(text, i, part) {
        return true;
      }
      i := i + 1;
    }
    return false;
  }
}
