/** Which services are restarted after files have changed, in which order and on account of which files. */
module Restarts {
  import opened Wrappers
  import opened Sequences

  /** The restart map in its own order: a path and the services to restart when it changes. */
  type RestartMap = seq<(string, seq<string>)>

  /** `_pre_restart_on_change_helper`: a checksum for every path of the map. */
  function Snapshot(m: RestartMap, pathHash: string -> string): (r: map<string, string>)
    ensures forall e :: e in m ==> e.0 in r && r[e.0] == pathHash(e.0)
  {
    map p | p in (set e | e in m :: e.0) :: pathHash(p)
  }

  function ChangedEntries(m: RestartMap, before: map<string, string>, pathHash: string -> string): RestartMap
    requires forall e :: e in m ==> e.0 in before
  {
    if m == [] then []
    else
      var rest := ChangedEntries(m[..|m| - 1], before, pathHash);
      var last := m[|m| - 1];
      if pathHash(last.0) != before[last.0] then rest + [last] else rest
  }

  /** Exactly the entries whose checksum differs. */
  lemma {:induction false} ChangedIff(m: RestartMap, before: map<string, string>, pathHash: string -> string,
                                     e: (string, seq<string>))
    requires forall x :: x in m ==> x.0 in before
    ensures e in ChangedEntries(m, before, pathHash) <==> e in m && pathHash(e.0) != before[e.0]
  {
    if m != [] {
      ChangedIff(m[..|m| - 1], before, pathHash, e);
      assert m == m[..|m| - 1] + [m[|m| - 1]];
    }
  }

  function Chained(m: RestartMap): seq<string> {
    if m == [] then [] else Chained(m[..|m| - 1]) + m[|m| - 1].1
  }

  lemma {:induction false} ChainedIff(m: RestartMap, svc: string)
    ensures svc in Chained(m) <==> exists e :: e in m && svc in e.1
  {
    if m != [] {
      ChainedIff(m[..|m| - 1], svc);
      assert m == m[..|m| - 1] + [m[|m| - 1]];
      if svc in m[|m| - 1].1 {
        assert m[|m| - 1] in m;
      }
    }
  }

  /** `OrderedDict.fromkeys`: each value once, where it first occurs. */
  function Unique(s: seq<string>): seq<string> {
    if s == [] then []
    else
      var rest := Unique(s[..|s| - 1]);
      if s[|s| - 1] in rest then rest else rest + [s[|s| - 1]]
  }

  function FirstIndex(s: seq<string>, x: string): (i: nat)
    requires x in s
    ensures i < |s| && s[i] == x && x !in s[..i]
  {
    if s[0] == x then 0
    else
      assert s == [s[0]] + s[1..];
      assert forall n :: 0 < n <= |s| ==> s[..n] == [s[0]] + s[1..][..n - 1];
      1 + FirstIndex(s[1..], x)
  }

  /** The list has the same members, each once, in the order in which they first occur. */
  lemma {:induction false} UniqueIsInOrder(s: seq<string>)
    ensures forall x :: x in Unique(s) <==> x in s
    ensures NoDuplicates(Unique(s))
    ensures forall i, j :: 0 <= i < j < |Unique(s)| && Unique(s)[i] in s && Unique(s)[j] in s
                           ==> FirstIndex(s, Unique(s)[i]) < FirstIndex(s, Unique(s)[j])
  {
    if s != [] {
      var init, last := s[..|s| - 1], s[|s| - 1];
      assert s == init + [last];
      UniqueIsInOrder(init);
      forall x | x in init ensures x in s && FirstIndex(s, x) == FirstIndex(init, x) {
        FirstIndexStays(init, last, x);
      }
      if last !in init {
        FirstIndexOfNew(init, last);
      }
    }
  }

  lemma FirstIndexStays(init: seq<string>, last: string, x: string)
    requires x in init
    ensures x in init + [last] && FirstIndex(init + [last], x) == FirstIndex(init, x)
  {
    var s := init + [last];
    var i, j := FirstIndex(init, x), FirstIndex(s, x);
    assert s[i] == x && s[..i] == init[..i];
  }

  lemma FirstIndexOfNew(init: seq<string>, last: string)
    requires last !in init
    ensures last in init + [last] && FirstIndex(init + [last], last) == |init|
  {
  }

  /** `changed_files[svc]`: the changed paths that name the service, once for every time they name it. */
  function FilesOf(m: RestartMap, svc: string): seq<string> {
    if m == [] then []
    else FilesOf(m[..|m| - 1], svc) + Repeated(m[|m| - 1].0, m[|m| - 1].1, svc)
  }

  function Repeated(path: string, services: seq<string>, svc: string): seq<string> {
    if services == [] then []
    else Repeated(path, services[..|services| - 1], svc) + if services[|services| - 1] == svc then [path] else []
  }

  lemma {:induction false} RepeatedIs(path: string, services: seq<string>, svc: string)
    ensures forall f :: f in Repeated(path, services, svc) ==> f == path
    ensures |Repeated(path, services, svc)| == multiset(services)[svc]
  {
    if services != [] {
      RepeatedIs(path, services[..|services| - 1], svc);
      assert services == services[..|services| - 1] + [services[|services| - 1]];
    }
  }

  /** A service's changed files are exactly the changed paths whose entry names it. */
  lemma {:induction false} FilesIff(m: RestartMap, svc: string, path: string)
    ensures path in FilesOf(m, svc) <==> exists e :: e in m && e.0 == path && svc in e.1
  {
    if m != [] {
      var init, last := m[..|m| - 1], m[|m| - 1];
      FilesIff(init, svc, path);
      RepeatedIs(last.0, last.1, svc);
      assert m == init + [last];
      if last.0 == path && svc in last.1 {
        var files := Repeated(last.0, last.1, svc);
        assert multiset(last.1)[svc] > 0;
        assert files[0] in files;
        assert last in m;
      }
    }
  }

  // ---------------------------------------------------------------- what is done

  /** Everything the helper does, in order. */
  datatype Event =
    | Wait
    | Asked(service: string, files: seq<string>)
    | Custom(service: string)
    | Action(verb: string, service: string)
    | After(service: string)

  /** The options: stop and start or restart, services with their own restart function, the permission
      check, and whether there are hooks before all and after each restart. */
  datatype Options = Options(
    stopStart: bool,
    custom: set<string>,
    mayRestart: Option<(string, seq<string>) -> bool>,
    waits: bool,
    notifies: bool)

  function Restarted(o: Options, svc: string): seq<Event> {
    (if svc in o.custom then [Custom(svc)]
     else if o.stopStart then [Action("stop", svc), Action("start", svc)]
     else [Action("restart", svc)])
    + if o.notifies then [After(svc)] else []
  }

  /** A service's events, each once. The question comes first, a stop before its start, the closing hook last. */
  function ServiceEvents(o: Options, svc: string, files: seq<string>): (es: seq<Event>)
    ensures NoDuplicates(es) && es != []
    ensures forall i :: 0 <= i < |es| ==> (es[i].Asked? <==> i == 0 && o.mayRestart.Some?)
    ensures o.mayRestart.Some? ==> es[0] == Asked(svc, files)
    ensures forall i :: 0 <= i < |es| ==> (es[i].After? ==> i == |es| - 1)
    ensures forall i :: 0 <= i < |es| && es[i] == Action("stop", svc)
                        ==> i + 1 < |es| && es[i + 1] == Action("start", svc)
  {
    if o.mayRestart.None? then Restarted(o, svc)
    else [Asked(svc, files)] + if o.mayRestart.value(svc, files) then Restarted(o, svc) else []
  }

  predicate Permitted(o: Options, svc: string, files: seq<string>) {
    o.mayRestart.None? || o.mayRestart.value(svc, files)
  }

  /** This is how a permitted service is driven: its own function, or the verbs, and then the closing hook. */
  predicate Drives(o: Options, e: Event) {
    match e
    case Custom(svc) => svc in o.custom
    case Action(verb, svc) => svc !in o.custom && if o.stopStart then verb in ["stop", "start"] else verb == "restart"
    case After(_) => o.notifies
    case _ => false
  }

  lemma ServiceEventIff(o: Options, svc: string, files: seq<string>, e: Event)
    requires !e.Wait? && !e.Asked?
    ensures e in ServiceEvents(o, svc, files) <==> e.service == svc && Permitted(o, svc, files) && Drives(o, e)
  {
    var es := Restarted(o, svc);
    assert e in es <==> e.service == svc && Drives(o, e);
    if o.mayRestart.Some? {
      assert e in [Asked(svc, files)] + es <==> e in es;
    }
  }

  /** No action without permission, and none missing: a restart event occurs exactly when its service is
      planned, is permitted for its changed files, and is driven that way. */
  lemma {:induction false} RefusedSeesNoAction(o: Options, changed: RestartMap, plan: seq<string>, e: Event)
    requires !e.Wait? && !e.Asked?
    ensures e in AllEvents(o, changed, plan)
            <==> e.service in plan && Permitted(o, e.service, FilesOf(changed, e.service)) && Drives(o, e)
  {
    if plan != [] {
      var init, last := plan[..|plan| - 1], plan[|plan| - 1];
      assert plan == init + [last];
      RefusedSeesNoAction(o, changed, init, e);
      ServiceEventIff(o, last, FilesOf(changed, last), e);
    }
  }

  function AllEvents(o: Options, changed: RestartMap, plan: seq<string>): seq<Event> {
    if plan == [] then []
    else
      var svc := plan[|plan| - 1];
      AllEvents(o, changed, plan[..|plan| - 1]) + ServiceEvents(o, svc, FilesOf(changed, svc))
  }

  predicate About(e: Event, svc: string) {
    !e.Wait? && e.service == svc
  }

  /** The events that concern one service. */
  function Projected(es: seq<Event>, svc: string): seq<Event> {
    if es == [] then []
    else Projected(es[..|es| - 1], svc) + if About(es[|es| - 1], svc) then [es[|es| - 1]] else []
  }

  lemma {:induction false} ProjectedAppend(a: seq<Event>, b: seq<Event>, svc: string)
    ensures Projected(a + b, svc) == Projected(a, svc) + Projected(b, svc)
    decreases |b|
  {
    if b == [] {
      assert a + b == a;
    } else {
      assert (a + b)[..|a + b| - 1] == a + b[..|b| - 1];
      ProjectedAppend(a, b[..|b| - 1], svc);
    }
  }

  lemma {:induction false} ProjectedUniform(es: seq<Event>, svc: string, own: bool)
    requires forall i :: 0 <= i < |es| ==> (About(es[i], svc) <==> own)
    ensures Projected(es, svc) == if own then es else []
  {
    if es != [] {
      ProjectedUniform(es[..|es| - 1], svc, own);
      assert es == es[..|es| - 1] + [es[|es| - 1]];
    }
  }

  lemma EventsAreAbout(o: Options, svc: string, files: seq<string>, other: string)
    ensures var es := ServiceEvents(o, svc, files);
            forall i :: 0 <= i < |es| ==> (About(es[i], other) <==> other == svc)
  {
  }

  /** What happens to a service: nothing unless it is planned; if planned, its own events once, and of
      these only the question when the answer is no. */
  lemma {:induction false} ServiceIsHandledOnce(o: Options, changed: RestartMap, plan: seq<string>, svc: string)
    requires NoDuplicates(plan)
    ensures Projected(AllEvents(o, changed, plan), svc) ==
            if svc in plan then ServiceEvents(o, svc, FilesOf(changed, svc)) else []
  {
    if plan != [] {
      var init, last := plan[..|plan| - 1], plan[|plan| - 1];
      assert plan == init + [last];
      assert svc in plan <==> svc in init || svc == last;
      ServiceIsHandledOnce(o, changed, init, svc);
      ProjectedAppend(AllEvents(o, changed, init), ServiceEvents(o, last, FilesOf(changed, last)), svc);
      EventsAreAbout(o, last, FilesOf(changed, last), svc);
      ProjectedUniform(ServiceEvents(o, last, FilesOf(changed, last)), svc, svc == last);
    }
  }

  // ---------------------------------------------------------------- in which order

  function EventParts(o: Options, changed: RestartMap, plan: seq<string>): (parts: seq<seq<Event>>)
    ensures |parts| == |plan|
    ensures forall a :: 0 <= a < |plan| ==> parts[a] == ServiceEvents(o, plan[a], FilesOf(changed, plan[a]))
  {
    seq(|plan|, a requires 0 <= a < |plan| => ServiceEvents(o, plan[a], FilesOf(changed, plan[a])))
  }

  lemma {:induction false} EventsAreFlat(o: Options, changed: RestartMap, plan: seq<string>)
    ensures AllEvents(o, changed, plan) == Flat(EventParts(o, changed, plan))
  {
    if plan != [] {
      EventsAreFlat(o, changed, plan[..|plan| - 1]);
      assert EventParts(o, changed, plan)[..|plan| - 1] == EventParts(o, changed, plan[..|plan| - 1]);
    }
  }

  /** Every event is one of a planned service's own. */
  lemma EventPlace(o: Options, changed: RestartMap, plan: seq<string>, p: nat) returns (a: nat, i: nat)
    requires p < |AllEvents(o, changed, plan)|
    ensures var parts := EventParts(o, changed, plan);
            && a < |plan| && i < |parts[a]| && p == Start(parts, a) + i
            && AllEvents(o, changed, plan)[p] == parts[a][i] && About(parts[a][i], plan[a])
  {
    EventsAreFlat(o, changed, plan);
    a, i := FlatPlace(EventParts(o, changed, plan), p);
    EventsAreAbout(o, plan[a], FilesOf(changed, plan[a]), plan[a]);
  }

  /** The plan is carried out in its order: what concerns an earlier service comes before all that concerns
      a later one. */
  lemma EventsInOrder(o: Options, changed: RestartMap, plan: seq<string>, a: nat, b: nat, p: nat, q: nat)
    requires NoDuplicates(plan) && a < b < |plan|
    requires p < |AllEvents(o, changed, plan)| && q < |AllEvents(o, changed, plan)|
    requires About(AllEvents(o, changed, plan)[p], plan[a]) && About(AllEvents(o, changed, plan)[q], plan[b])
    ensures p < q
  {
    var a', i := EventPlace(o, changed, plan, p);
    var b', j := EventPlace(o, changed, plan, q);
    assert a' == a && b' == b;
    FlatOrder(EventParts(o, changed, plan), a, i, b, j);
  }

  /** Of one service's events the question comes first and the closing hook last, a stop comes before the start,
      and none comes twice. */
  lemma OwnEventsInOrder(o: Options, changed: RestartMap, plan: seq<string>, svc: string, p: nat, q: nat)
    requires NoDuplicates(plan) && p < |AllEvents(o, changed, plan)| && q < |AllEvents(o, changed, plan)| && p != q
    requires About(AllEvents(o, changed, plan)[p], svc) && About(AllEvents(o, changed, plan)[q], svc)
    ensures var es := AllEvents(o, changed, plan);
            es[p] != es[q] && (es[p].Asked? || es[q].After? || GoesDown(es[p], es[q]) ==> p < q)
  {
    var parts := EventParts(o, changed, plan);
    var a, i := EventPlace(o, changed, plan, p);
    var b, j := EventPlace(o, changed, plan, q);
    assert a == b;
    FlatOrder(parts, a, i, b, j);
    OwnOrder(o, plan[a], FilesOf(changed, plan[a]), i, j);
  }

  predicate GoesDown(e: Event, f: Event) {
    e.Action? && f.Action? && e.verb == "stop" && f.verb == "start"
  }

  lemma OwnOrder(o: Options, svc: string, files: seq<string>, i: nat, j: nat)
    requires var es := ServiceEvents(o, svc, files);
             i < |es| && j < |es| && i != j
    ensures var es := ServiceEvents(o, svc, files);
            es[i] != es[j] && (es[i].Asked? || es[j].After? || GoesDown(es[i], es[j]) ==> i < j)
  {
  }

  /** The i-th path of the map has changed and names the service at place `j` of its list. */
  ghost predicate Names(m: RestartMap, before: map<string, string>, pathHash: string -> string,
                        i: int, j: int, svc: string)
    requires forall e :: e in m ==> e.0 in before
  {
    0 <= i < |m| && pathHash(m[i].0) != before[m[i].0] && 0 <= j < |m[i].1| && m[i].1[j] == svc
  }

  /** Nothing names the service earlier. */
  ghost predicate FirstNames(m: RestartMap, before: map<string, string>, pathHash: string -> string,
                             i: int, j: int, svc: string)
    requires forall e :: e in m ==> e.0 in before
  {
    && Names(m, before, pathHash, i, j, svc)
    && forall k, l :: Names(m, before, pathHash, k, l, svc) ==> i < k || (i == k && j <= l)
  }

  /** Going through the changed paths of the map, and through the services of each, one meets `a` before `b`. */
  ghost predicate NamedBefore(m: RestartMap, before: map<string, string>, pathHash: string -> string,
                              a: string, b: string)
    requires forall e :: e in m ==> e.0 in before
  {
    exists i, j, k, l :: FirstNames(m, before, pathHash, i, j, a) && FirstNames(m, before, pathHash, k, l, b)
                         && (i < k || (i == k && j < l))
  }

  function ServiceParts(m: RestartMap, before: map<string, string>, pathHash: string -> string)
    : (parts: seq<seq<string>>)
    requires forall e :: e in m ==> e.0 in before
    ensures |parts| == |m|
    ensures forall i :: 0 <= i < |m| ==> parts[i] == if pathHash(m[i].0) != before[m[i].0] then m[i].1 else []
  {
    seq(|m|, i requires 0 <= i < |m| => if pathHash(m[i].0) != before[m[i].0] then m[i].1 else [])
  }

  lemma {:induction false} ChainedIsFlat(m: RestartMap, before: map<string, string>, pathHash: string -> string)
    requires forall e :: e in m ==> e.0 in before
    ensures Chained(ChangedEntries(m, before, pathHash)) == Flat(ServiceParts(m, before, pathHash))
  {
    if m != [] {
      var init, last := m[..|m| - 1], m[|m| - 1];
      ChainedIsFlat(init, before, pathHash);
      assert ServiceParts(m, before, pathHash)[..|m| - 1] == ServiceParts(init, before, pathHash);
      var rest := ChangedEntries(init, before, pathHash);
      assert (rest + [last])[..|rest|] == rest;
    }
  }

  lemma FirstNamedAt(m: RestartMap, before: map<string, string>, pathHash: string -> string,
                     i: nat, j: nat, svc: string)
    requires forall e :: e in m ==> e.0 in before
    requires FirstNames(m, before, pathHash, i, j, svc)
    ensures var all, parts := Chained(ChangedEntries(m, before, pathHash)), ServiceParts(m, before, pathHash);
            svc in all && FirstIndex(all, svc) == Start(parts, i) + j
  {
    var all, parts := Chained(ChangedEntries(m, before, pathHash)), ServiceParts(m, before, pathHash);
    ChainedIsFlat(m, before, pathHash);
    FlatAt(parts, i, j);
    FirstIndexIsLeast(all, svc, Start(parts, i) + j);
    var k, l := FlatPlace(parts, FirstIndex(all, svc));
    assert Names(m, before, pathHash, k, l, svc);
    FlatOrder(parts, k, l, i, j);
  }

  lemma FirstIndexIsLeast(s: seq<string>, x: string, n: nat)
    requires n < |s| && s[n] == x
    ensures FirstIndex(s, x) <= n
  {
    var i := FirstIndex(s, x);
    assert forall k :: 0 <= k < i ==> s[..i][k] == s[k];
  }

  lemma UniqueOrder(s: seq<string>, a: string, b: string) returns (x: nat, y: nat)
    requires a in s && b in s && FirstIndex(s, a) < FirstIndex(s, b)
    ensures x < y < |Unique(s)| && Unique(s)[x] == a && Unique(s)[y] == b
  {
    UniqueIsInOrder(s);
    assert a in Unique(s) && b in Unique(s);
    x :| 0 <= x < |Unique(s)| && Unique(s)[x] == a;
    y :| 0 <= y < |Unique(s)| && Unique(s)[y] == b;
  }

  /** The plan lists the services in the order in which the changed paths of the map name them first. */
  lemma PlanInMapOrder(m: RestartMap, before: map<string, string>, pathHash: string -> string, a: string, b: string)
    returns (x: nat, y: nat)
    requires forall e :: e in m ==> e.0 in before
    requires NamedBefore(m, before, pathHash, a, b)
    ensures var plan := PlanOf(ChangedEntries(m, before, pathHash));
            x < y < |plan| && plan[x] == a && plan[y] == b
  {
    var i, j, k, l :| FirstNames(m, before, pathHash, i, j, a) && FirstNames(m, before, pathHash, k, l, b)
                      && (i < k || (i == k && j < l));
    FirstNamedAt(m, before, pathHash, i, j, a);
    FirstNamedAt(m, before, pathHash, k, l, b);
    FlatOrder(ServiceParts(m, before, pathHash), i, j, k, l);
    x, y := UniqueOrder(Chained(ChangedEntries(m, before, pathHash)), a, b);
  }

  // ---------------------------------------------------------------- with which files

  /** The changed paths in the map's order, each as often as it names the service. */
  ghost predicate AreFilesOf(files: seq<string>, m: RestartMap, before: map<string, string>,
                             pathHash: string -> string, svc: string)
    requires forall e :: e in m ==> e.0 in before
  {
    exists parts: seq<seq<string>> :: files == Flat(parts) && AreFileParts(parts, m, before, pathHash, svc)
  }

  ghost predicate AreFileParts(parts: seq<seq<string>>, m: RestartMap, before: map<string, string>,
                               pathHash: string -> string, svc: string)
    requires forall e :: e in m ==> e.0 in before
  {
    && |parts| == |m|
    && forall i :: 0 <= i < |m| ==>
         && |parts[i]| == (if pathHash(m[i].0) != before[m[i].0] then multiset(m[i].1)[svc] else 0)
         && forall j :: 0 <= j < |parts[i]| ==> parts[i][j] == m[i].0
  }

  /** These are what a service is asked about, and nothing else is. */
  lemma FilesAre(m: RestartMap, before: map<string, string>, pathHash: string -> string, svc: string,
                 files: seq<string>)
    requires forall e :: e in m ==> e.0 in before
    ensures AreFilesOf(files, m, before, pathHash, svc) <==> files == FilesOf(ChangedEntries(m, before, pathHash), svc)
  {
    var own := FilePartsOf(m, before, pathHash, svc);
    if AreFilesOf(files, m, before, pathHash, svc) {
      var parts :| files == Flat(parts) && AreFileParts(parts, m, before, pathHash, svc);
      forall i | 0 <= i < |m| ensures parts[i] == own[i] {
        assert |parts[i]| == |own[i]|;
      }
      assert parts == own;
    }
  }

  lemma {:induction false} FilePartsOf(m: RestartMap, before: map<string, string>, pathHash: string -> string,
                                      svc: string) returns (parts: seq<seq<string>>)
    requires forall e :: e in m ==> e.0 in before
    ensures AreFileParts(parts, m, before, pathHash, svc)
    ensures Flat(parts) == FilesOf(ChangedEntries(m, before, pathHash), svc)
  {
    parts := [];
    if m != [] {
      var init, last := m[..|m| - 1], m[|m| - 1];
      var front := FilePartsOf(init, before, pathHash, svc);
      var own := if pathHash(last.0) != before[last.0] then Repeated(last.0, last.1, svc) else [];
      FilesStep(m, before, pathHash, svc);
      LastPart(m, before, pathHash, svc);
      parts := front + [own];
      AddPart(m, before, pathHash, svc, front, own);
    }
  }

  lemma AddPart(m: RestartMap, before: map<string, string>, pathHash: string -> string, svc: string,
                front: seq<seq<string>>, own: seq<string>)
    requires m != [] && forall e :: e in m ==> e.0 in before
    requires AreFileParts(front, m[..|m| - 1], before, pathHash, svc)
    requires var last := m[|m| - 1];
             && |own| == (if pathHash(last.0) != before[last.0] then multiset(last.1)[svc] else 0)
             && forall j :: 0 <= j < |own| ==> own[j] == last.0
    ensures AreFileParts(front + [own], m, before, pathHash, svc)
    ensures Flat(front + [own]) == Flat(front) + own
  {
    var init, parts := m[..|m| - 1], front + [own];
    assert parts[..|parts| - 1] == front;
    forall i | 0 <= i < |m|
      ensures |parts[i]| == (if pathHash(m[i].0) != before[m[i].0] then multiset(m[i].1)[svc] else 0)
      ensures forall j :: 0 <= j < |parts[i]| ==> parts[i][j] == m[i].0
    {
      if i < |init| {
        assert m[i] == init[i] && parts[i] == front[i];
      }
    }
  }

  lemma LastPart(m: RestartMap, before: map<string, string>, pathHash: string -> string, svc: string)
    requires m != [] && forall e :: e in m ==> e.0 in before
    ensures var last := m[|m| - 1];
            var own := if pathHash(last.0) != before[last.0] then Repeated(last.0, last.1, svc) else [];
            && |own| == (if pathHash(last.0) != before[last.0] then multiset(last.1)[svc] else 0)
            && forall j :: 0 <= j < |own| ==> own[j] == last.0
  {
    var last := m[|m| - 1];
    RepeatedIs(last.0, last.1, svc);
    var files := Repeated(last.0, last.1, svc);
    assert forall j :: 0 <= j < |files| ==> files[j] in files;
  }

  lemma FilesStep(m: RestartMap, before: map<string, string>, pathHash: string -> string, svc: string)
    requires m != [] && forall e :: e in m ==> e.0 in before
    ensures var init, last := m[..|m| - 1], m[|m| - 1];
            FilesOf(ChangedEntries(m, before, pathHash), svc) ==
            FilesOf(ChangedEntries(init, before, pathHash), svc) +
            if pathHash(last.0) != before[last.0] then Repeated(last.0, last.1, svc) else []
  {
    var rest := ChangedEntries(m[..|m| - 1], before, pathHash);
    assert (rest + [m[|m| - 1]])[..|rest|] == rest;
  }

  function PlanOf(changed: RestartMap): seq<string> {
    Unique(Chained(changed))
  }

  // ---------------------------------------------------------------- the whole, in terms of the map

  ghost predicate IsNamed(m: RestartMap, before: map<string, string>, pathHash: string -> string, svc: string)
    requires forall e :: e in m ==> e.0 in before
  {
    exists i, j :: Names(m, before, pathHash, i, j, svc)
  }

  /** What has to happen: the wait if any service is named by a changed path; for every such service the question
      with its files, and if they are permitted whatever drives it. */
  ghost predicate IsDue(m: RestartMap, before: map<string, string>, pathHash: string -> string, o: Options, e: Event)
    requires forall e :: e in m ==> e.0 in before
  {
    match e
    case Wait => o.waits && exists svc :: IsNamed(m, before, pathHash, svc)
    case Asked(svc, files) =>
      o.mayRestart.Some? && IsNamed(m, before, pathHash, svc) && AreFilesOf(files, m, before, pathHash, svc)
    case _ =>
      && IsNamed(m, before, pathHash, e.service) && Drives(o, e)
      && exists files :: AreFilesOf(files, m, before, pathHash, e.service) && Permitted(o, e.service, files)
  }

  /** What has to happen first: the wait before all; everything about a service that is named earlier; of one
      service's events the question before, and the closing hook behind, the others, and a stop before the start. */
  ghost predicate Precedes(m: RestartMap, before: map<string, string>, pathHash: string -> string, e: Event, f: Event)
    requires forall e :: e in m ==> e.0 in before
  {
    && !f.Wait?
    && (|| e.Wait?
        || NamedBefore(m, before, pathHash, e.service, f.service)
        || (e.service == f.service && e != f && (e.Asked? || f.After? || GoesDown(e, f))))
  }

  ghost predicate AreInOrder(events: seq<Event>, m: RestartMap, before: map<string, string>, pathHash: string -> string)
    requires forall e :: e in m ==> e.0 in before
  {
    forall p, q :: 0 <= p < |events| && 0 <= q < |events| ==>
      (Precedes(m, before, pathHash, events[p], events[q]) ==> p < q)
  }

  lemma NotBeforeItself(m: RestartMap, before: map<string, string>, pathHash: string -> string, e: Event)
    requires forall e :: e in m ==> e.0 in before
    ensures !Precedes(m, before, pathHash, e, e)
  {
  }

  lemma WaitIff(m: RestartMap, before: map<string, string>, pathHash: string -> string, o: Options)
    requires forall e :: e in m ==> e.0 in before
    ensures Wait in EventsOf(m, before, pathHash, o) <==> IsDue(m, before, pathHash, o, Wait)
  {
    var changed := ChangedEntries(m, before, pathHash);
    var plan, es := PlanOf(changed), AllEvents(o, changed, PlanOf(changed));
    forall p | 0 <= p < |es| ensures !es[p].Wait? {
      var a, i := EventPlace(o, changed, plan, p);
    }
    forall svc ensures svc in plan <==> IsNamed(m, before, pathHash, svc) {
      PlannedIffNamed(m, before, pathHash, svc);
    }
    assert plan != [] ==> plan[0] in plan;
  }

  lemma PlannedIffNamed(m: RestartMap, before: map<string, string>, pathHash: string -> string, svc: string)
    requires forall e :: e in m ==> e.0 in before
    ensures svc in PlanOf(ChangedEntries(m, before, pathHash)) <==> IsNamed(m, before, pathHash, svc)
  {
    var all, parts := Chained(ChangedEntries(m, before, pathHash)), ServiceParts(m, before, pathHash);
    UniqueIsInOrder(all);
    ChainedIsFlat(m, before, pathHash);
    if svc in all {
      var i, j := FlatPlace(parts, FirstIndex(all, svc));
      assert Names(m, before, pathHash, i, j, svc);
    }
    if IsNamed(m, before, pathHash, svc) {
      var i, j :| Names(m, before, pathHash, i, j, svc);
      FlatAt(parts, i, j);
    }
  }

  lemma AskedIff(o: Options, changed: RestartMap, plan: seq<string>, svc: string, files: seq<string>)
    ensures Asked(svc, files) in AllEvents(o, changed, plan)
            <==> o.mayRestart.Some? && svc in plan && files == FilesOf(changed, svc)
  {
    var es, parts := AllEvents(o, changed, plan), EventParts(o, changed, plan);
    EventsAreFlat(o, changed, plan);
    if p :| 0 <= p < |es| && es[p] == Asked(svc, files) {
      var a, i := EventPlace(o, changed, plan, p);
      assert i == 0;
    }
    if o.mayRestart.Some? && svc in plan {
      var a :| 0 <= a < |plan| && plan[a] == svc;
      FlatAt(parts, a, 0);
    }
  }

  lemma EventIff(m: RestartMap, before: map<string, string>, pathHash: string -> string, o: Options, e: Event)
    requires !e.Wait? && forall e :: e in m ==> e.0 in before
    ensures var changed := ChangedEntries(m, before, pathHash);
            e in AllEvents(o, changed, PlanOf(changed)) <==> IsDue(m, before, pathHash, o, e)
  {
    var changed := ChangedEntries(m, before, pathHash);
    PlannedIffNamed(m, before, pathHash, e.service);
    if e.Asked? {
      AskedIff(o, changed, PlanOf(changed), e.service, e.files);
      FilesAre(m, before, pathHash, e.service, e.files);
    } else {
      RefusedSeesNoAction(o, changed, PlanOf(changed), e);
      forall files ensures AreFilesOf(files, m, before, pathHash, e.service) <==> files == FilesOf(changed, e.service) {
        FilesAre(m, before, pathHash, e.service, files);
      }
    }
  }

  lemma EventOrder(m: RestartMap, before: map<string, string>, pathHash: string -> string, o: Options, p: nat, q: nat)
    requires forall e :: e in m ==> e.0 in before
    requires var changed := ChangedEntries(m, before, pathHash);
             var es := AllEvents(o, changed, PlanOf(changed));
             p < |es| && q < |es| && p != q
    ensures var changed := ChangedEntries(m, before, pathHash);
            var es := AllEvents(o, changed, PlanOf(changed));
            !es[p].Wait? && es[p] != es[q] && (Precedes(m, before, pathHash, es[p], es[q]) ==> p < q)
  {
    var changed := ChangedEntries(m, before, pathHash);
    var plan := PlanOf(changed);
    var es := AllEvents(o, changed, plan);
    UniqueIsInOrder(Chained(changed));
    var a, i := EventPlace(o, changed, plan, p);
    var b, j := EventPlace(o, changed, plan, q);
    if es[p].service == es[q].service {
      OwnEventsInOrder(o, changed, plan, es[p].service, p, q);
    }
    if NamedBefore(m, before, pathHash, es[p].service, es[q].service) {
      var x, y := PlanInMapOrder(m, before, pathHash, es[p].service, es[q].service);
      EventsInOrder(o, changed, plan, x, y, p, q);
    }
  }

  /** `changed_files[svc]` of a dictionary whose missing keys are empty lists. */
  function FilesIn(files: map<string, seq<string>>, svc: string): seq<string> {
    if svc in files then files[svc] else []
  }

  function EventsOf(m: RestartMap, before: map<string, string>, pathHash: string -> string, o: Options): seq<Event>
    requires forall e :: e in m ==> e.0 in before
  {
    var changed := ChangedEntries(m, before, pathHash);
    var plan := PlanOf(changed);
    if plan == [] then [] else (if o.waits then [Wait] else []) + AllEvents(o, changed, plan)
  }

  /** What is due happens, once, in the order that is due, and nothing else happens. */
  lemma AllIsDue(m: RestartMap, before: map<string, string>, pathHash: string -> string, o: Options)
    requires forall e :: e in m ==> e.0 in before
    ensures IsWhatIsDue(EventsOf(m, before, pathHash, o), m, before, pathHash, o)
  {
    forall e ensures e in EventsOf(m, before, pathHash, o) <==> IsDue(m, before, pathHash, o, e) {
      DueIff(m, before, pathHash, o, e);
    }
    var changed := ChangedEntries(m, before, pathHash);
    var es := AllEvents(o, changed, PlanOf(changed));
    ActionsInOrder(m, before, pathHash, o);
    WaitInFront(m, before, pathHash, es);
    assert [] + es == es;
  }

  lemma DueIff(m: RestartMap, before: map<string, string>, pathHash: string -> string, o: Options, e: Event)
    requires forall e :: e in m ==> e.0 in before
    ensures e in EventsOf(m, before, pathHash, o) <==> IsDue(m, before, pathHash, o, e)
  {
    if e.Wait? {
      WaitIff(m, before, pathHash, o);
    } else {
      var changed := ChangedEntries(m, before, pathHash);
      var es := AllEvents(o, changed, PlanOf(changed));
      EventIff(m, before, pathHash, o, e);
      assert e in [Wait] + es <==> e in es;
      assert e in [] + es <==> e in es;
    }
  }

  lemma ActionsInOrder(m: RestartMap, before: map<string, string>, pathHash: string -> string, o: Options)
    requires forall e :: e in m ==> e.0 in before
    ensures var changed := ChangedEntries(m, before, pathHash);
            var es := AllEvents(o, changed, PlanOf(changed));
            Wait !in es && NoDuplicates(es) && AreInOrder(es, m, before, pathHash)
  {
    var changed := ChangedEntries(m, before, pathHash);
    var es := AllEvents(o, changed, PlanOf(changed));
    forall p, q | 0 <= p < |es| && 0 <= q < |es|
      ensures !es[p].Wait? && (p != q ==> es[p] != es[q]) && (Precedes(m, before, pathHash, es[p], es[q]) ==> p < q)
    {
      if p == q {
        var a, i := EventPlace(o, changed, PlanOf(changed), p);
        NotBeforeItself(m, before, pathHash, es[p]);
      } else {
        EventOrder(m, before, pathHash, o, p, q);
      }
    }
  }

  lemma WaitInFront(m: RestartMap, before: map<string, string>, pathHash: string -> string, es: seq<Event>)
    requires forall e :: e in m ==> e.0 in before
    requires Wait !in es && NoDuplicates(es) && AreInOrder(es, m, before, pathHash)
    ensures NoDuplicates([Wait] + es) && AreInOrder([Wait] + es, m, before, pathHash)
  {
    var events := [Wait] + es;
    forall p, q | 0 <= p < |events| && 0 <= q < |events|
      ensures Precedes(m, before, pathHash, events[p], events[q]) ==> p < q
    {
      if p > 0 && q > 0 {
        assert events[p] == es[p - 1] && events[q] == es[q - 1];
      }
    }
  }

  // ---------------------------------------------------------------- there is only one such list

  lemma FirstNaming(m: RestartMap, before: map<string, string>, pathHash: string -> string, svc: string)
    returns (i: nat, j: nat)
    requires forall e :: e in m ==> e.0 in before
    requires IsNamed(m, before, pathHash, svc)
    ensures FirstNames(m, before, pathHash, i, j, svc)
  {
    var all, parts := Chained(ChangedEntries(m, before, pathHash)), ServiceParts(m, before, pathHash);
    ChainedIsFlat(m, before, pathHash);
    PlannedIffNamed(m, before, pathHash, svc);
    UniqueIsInOrder(all);
    i, j := FlatPlace(parts, FirstIndex(all, svc));
    forall k, l | Names(m, before, pathHash, k, l, svc) ensures i < k || (i == k && j <= l) {
      NotEarlier(parts, svc, i, j, k, l);
    }
  }

  lemma NotEarlier(parts: seq<seq<string>>, svc: string, i: nat, j: nat, k: nat, l: nat)
    requires i < |parts| && j < |parts[i]| && k < |parts| && l < |parts[k]| && parts[k][l] == svc
    requires svc in Flat(parts) && FirstIndex(Flat(parts), svc) == Start(parts, i) + j
    ensures i < k || (i == k && j <= l)
  {
    FlatAt(parts, k, l);
    FirstIndexIsLeast(Flat(parts), svc, Start(parts, k) + l);
    FlatOrder(parts, k, l, i, j);
  }

  /** Of any two services that are named, one is named before the other. */
  lemma OneIsNamedFirst(m: RestartMap, before: map<string, string>, pathHash: string -> string, a: string, b: string)
    requires forall e :: e in m ==> e.0 in before
    requires IsNamed(m, before, pathHash, a) && IsNamed(m, before, pathHash, b) && a != b
    ensures NamedBefore(m, before, pathHash, a, b) || NamedBefore(m, before, pathHash, b, a)
  {
    var i, j := FirstNaming(m, before, pathHash, a);
    var k, l := FirstNaming(m, before, pathHash, b);
    assert i == k ==> j != l;
  }

  lemma OnePrecedes(m: RestartMap, before: map<string, string>, pathHash: string -> string, o: Options,
                    e: Event, f: Event)
    requires forall e :: e in m ==> e.0 in before
    requires IsDue(m, before, pathHash, o, e) && IsDue(m, before, pathHash, o, f) && e != f
    ensures Precedes(m, before, pathHash, e, f) || Precedes(m, before, pathHash, f, e)
  {
    if !e.Wait? && !f.Wait? {
      if e.service != f.service {
        OneIsNamedFirst(m, before, pathHash, e.service, f.service);
      } else if e.Asked? && f.Asked? {
        FilesAre(m, before, pathHash, e.service, e.files);
        FilesAre(m, before, pathHash, e.service, f.files);
      }
    }
  }

  ghost predicate IsWhatIsDue(events: seq<Event>, m: RestartMap, before: map<string, string>,
                              pathHash: string -> string, o: Options)
    requires forall e :: e in m ==> e.0 in before
  {
    && (forall e :: e in events <==> IsDue(m, before, pathHash, o, e))
    && NoDuplicates(events) && AreInOrder(events, m, before, pathHash)
  }

  /** What is due, once and in order, leaves no choice: every such list is the one that is carried out. */
  lemma OnlyOneList(a: seq<Event>, b: seq<Event>, m: RestartMap, before: map<string, string>,
                    pathHash: string -> string, o: Options)
    requires forall e :: e in m ==> e.0 in before
    requires IsWhatIsDue(a, m, before, pathHash, o) && IsWhatIsDue(b, m, before, pathHash, o)
    ensures a == b
  {
    if |a| <= |b| {
      SameBeginning(a, b, m, before, pathHash, o, |a|);
      SameLength(a, b);
    } else {
      SameBeginning(b, a, m, before, pathHash, o, |b|);
      SameLength(b, a);
    }
  }

  lemma SameLength(a: seq<Event>, b: seq<Event>)
    requires |a| <= |b| && a == b[..|a|] && NoDuplicates(b) && forall e :: e in b ==> e in a
    ensures a == b
  {
    assert forall i :: 0 <= i < |a| ==> a[i] == b[..|a|][i] == b[i];
    if |a| < |b| {
      Occurs(b, |a|);
    }
  }

  lemma Occurs(s: seq<Event>, i: nat)
    requires i < |s|
    ensures s[i] in s
  {
  }

  lemma {:induction false} SameBeginning(a: seq<Event>, b: seq<Event>, m: RestartMap, before: map<string, string>,
                                         pathHash: string -> string, o: Options, n: nat)
    requires forall e :: e in m ==> e.0 in before
    requires IsWhatIsDue(a, m, before, pathHash, o) && IsWhatIsDue(b, m, before, pathHash, o)
    requires n <= |a| <= |b|
    ensures a[..n] == b[..n]
  {
    if n > 0 {
      var i := n - 1;
      SameBeginning(a, b, m, before, pathHash, o, i);
      if a[i] != b[i] {
        var k := LaterIn(a, b, i);
        var l := LaterIn(b, a, i);
        OnePrecedes(m, before, pathHash, o, a[i], b[i]);
        assert false;
      }
    }
  }

  /** Where two lists differ first, the element of the one comes later in the other. */
  lemma LaterIn(a: seq<Event>, b: seq<Event>, i: nat) returns (k: nat)
    requires i < |a| && i < |b| && a[..i] == b[..i] && a[i] != b[i] && a[i] in b && NoDuplicates(a)
    ensures i < k < |b| && b[k] == a[i]
  {
    assert forall x :: 0 <= x < i ==> a[x] == a[..i][x] == b[..i][x] == b[x];
    k :| 0 <= k < |b| && b[k] == a[i];
  }

  /** `_post_restart_on_change_helper`. */
  method PostRestartOnChange(m: RestartMap, before: map<string, string>, pathHash: string -> string, o: Options)
    returns (events: seq<Event>)
    requires forall e :: e in m ==> e.0 in before
    ensures events == EventsOf(m, before, pathHash, o)
    ensures IsWhatIsDue(events, m, before, pathHash, o)
  {
    AllIsDue(m, before, pathHash, o);
    var restarts, files := CollectChanges(m, before, pathHash);
    var plan := Unique(restarts);
    events := [];
    if plan != [] {
      if o.waits {
        events := [Wait];
      }
      var done := ActOnServices(o, plan, files, ChangedEntries(m, before, pathHash));
      events := events + done;
    }
  }

  /** The first loop: the services of the changed paths, and the changed paths of every service. */
  method CollectChanges(m: RestartMap, before: map<string, string>, pathHash: string -> string)
    returns (restarts: seq<string>, files: map<string, seq<string>>)
    requires forall e :: e in m ==> e.0 in before
    ensures restarts == Chained(ChangedEntries(m, before, pathHash))
    ensures forall svc :: FilesIn(files, svc) == FilesOf(ChangedEntries(m, before, pathHash), svc)
  {
    restarts, files := [], map[];
    ghost var changed: RestartMap := [];
    for i := 0 to |m|
      invariant changed == ChangedEntries(m[..i], before, pathHash)
      invariant restarts == Chained(changed)
      invariant forall svc :: FilesIn(files, svc) == FilesOf(changed, svc)
    {
      assert m[..i + 1][..i] == m[..i];
      if pathHash(m[i].0) != before[m[i].0] {
        restarts := restarts + m[i].1;
        files := AddFile(files, m[i].0, m[i].1);
        assert (changed + [m[i]])[..|changed|] == changed;
        changed := changed + [m[i]];
      }
    }
    assert m[..|m|] == m;
  }

  /** Filing the path once more, under the i-th service of the list. */
  lemma FileStep(files: map<string, seq<string>>, r: map<string, seq<string>>, path: string,
                 services: seq<string>, i: nat, svc: string)
    requires i < |services| && FilesIn(r, svc) == FilesIn(files, svc) + Repeated(path, services[..i], svc)
    ensures FilesIn(r[services[i] := FilesIn(r, services[i]) + [path]], svc) ==
            FilesIn(files, svc) + Repeated(path, services[..i + 1], svc)
  {
    assert services[..i + 1][..i] == services[..i];
    Regroup(FilesIn(files, svc), Repeated(path, services[..i], svc), [path]);
  }

  /** The inner loop: the path is filed under every service of the list, as often as it is listed. */
  method AddFile(files: map<string, seq<string>>, path: string, services: seq<string>)
    returns (r: map<string, seq<string>>)
    ensures forall svc :: FilesIn(r, svc) == FilesIn(files, svc) + Repeated(path, services, svc)
  {
    r := files;
    for i := 0 to |services|
      invariant forall svc :: FilesIn(r, svc) == FilesIn(files, svc) + Repeated(path, services[..i], svc)
    {
      forall svc ensures FilesIn(r[services[i] := FilesIn(r, services[i]) + [path]], svc) ==
                         FilesIn(files, svc) + Repeated(path, services[..i + 1], svc) {
        FileStep(files, r, path, services, i, svc);
      }
      r := r[services[i] := FilesIn(r, services[i]) + [path]];
    }
    assert services[..|services|] == services;
  }

  /** The second loop: each planned service in turn. */
  method ActOnServices(o: Options, plan: seq<string>, files: map<string, seq<string>>, ghost changed: RestartMap)
    returns (events: seq<Event>)
    requires forall svc :: FilesIn(files, svc) == FilesOf(changed, svc)
    ensures events == AllEvents(o, changed, plan)
  {
    events := [];
    for i := 0 to |plan|
      invariant events == AllEvents(o, changed, plan[..i])
    {
      assert plan[..i + 1][..i] == plan[..i];
      var own := ActOnService(o, plan[i], FilesIn(files, plan[i]));
      events := events + own;
    }
    assert plan[..|plan|] == plan;
  }

  /** The body of that loop. */
  method ActOnService(o: Options, svc: string, files: seq<string>) returns (events: seq<Event>)
    ensures events == ServiceEvents(o, svc, files)
  {
    events := [];
    if o.mayRestart.Some? {
      events := [Asked(svc, files)];
      if !o.mayRestart.value(svc, files) {
        return;
      }
    }
    ghost var asked := events;
    var own := [Custom(svc)];
    if svc !in o.custom {
      own := RunVerbs(o, svc);
    }
    events := events + own;
    if o.notifies {
      events := events + [After(svc)];
    }
    Regroup(asked, own, if o.notifies then [After(svc)] else []);
  }

  /** The verbs of a service without a restart function of its own. */
  method RunVerbs(o: Options, svc: string) returns (events: seq<Event>)
    ensures events == if o.stopStart then [Action("stop", svc), Action("start", svc)] else [Action("restart", svc)]
  {
    var verbs := if o.stopStart then ["stop", "start"] else ["restart"];
    events := [];
    for i := 0 to |verbs|
      invariant |events| == i && forall j :: 0 <= j < i ==> events[j] == Action(verbs[j], svc)
    {
      events := events + [Action(verbs[i], svc)];
    }
  }

  /** Restart planning is exact: a service is considered, once, exactly when some path that names it
      has a different checksum afterwards; it is told exactly those paths; and a refused service
      sees no action. */
  lemma PlanningIsExact(m: RestartMap, hashBefore: string -> string, hashAfter: string -> string,
                        o: Options, svc: string)
    ensures var changed := ChangedEntries(m, Snapshot(m, hashBefore), hashAfter);
            && (svc in PlanOf(changed) <==> exists e :: e in m && hashAfter(e.0) != hashBefore(e.0) && svc in e.1)
            && Projected(AllEvents(o, changed, PlanOf(changed)), svc) ==
               (if svc in PlanOf(changed) then ServiceEvents(o, svc, FilesOf(changed, svc)) else [])
            && (forall path :: path in FilesOf(changed, svc)
                               <==> exists e :: e in m && e.0 == path && hashAfter(path) != hashBefore(path)
                                                && svc in e.1)
  {
    var before := Snapshot(m, hashBefore);
    var changed := ChangedEntries(m, before, hashAfter);
    UniqueIsInOrder(Chained(changed));
    ChainedIff(changed, svc);
    forall e ensures e in changed <==> e in m && hashAfter(e.0) != hashBefore(e.0) {
      ChangedIff(m, before, hashAfter, e);
    }
    ServiceIsHandledOnce(o, changed, PlanOf(changed), svc);
    forall path ensures path in FilesOf(changed, svc)
                        <==> exists e :: e in m && e.0 == path && hashAfter(path) != hashBefore(path) && svc in e.1
    {
      FilesIff(changed, svc, path);
    }
  }
}
