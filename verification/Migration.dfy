/**
  Moving settings from the peer relation to leadership storage: `leader_get` of the peer storage
  helper copies what it misses and remembers which keys it has dealt with.
 */
module Migration {
  import opened Wrappers

  type Bag = map<string, string>

  /** Leadership settings, the keys recorded as migrated, and the local unit's peer relation data. */
  datatype State = State(leader: Bag, migrated: set<string>, peer: Bag)

  function Lookup(m: Bag, k: string): Option<string> {
    if k in m then Some(m[k]) else None
  }

  /** Python's truth of a looked-up string. */
  predicate Truthy(m: Bag, k: string) {
    k in m && m[k] != ""
  }

  /** `AttributeError` is what `leader_set(**values)` raises when it is handed a value under the name of its
      own first parameter. */
  datatype Error = AttributeError

  const SETTINGS := "settings"

  /** The leader's settings with the peer's values for the keys not yet dealt with; a leader value wins. */
  function Merged(s: State): (m: Bag)
    ensures forall k :: k in m <==> k in s.leader || (k in s.peer && k !in s.migrated)
  {
    var news := s.peer.Keys - s.migrated;
    map k | k in s.leader.Keys + news :: if k in news && !Truthy(s.leader, k) then s.peer[k] else s.leader[k]
  }

  predicate IsUnsettled(s: State, k: string) {
    k in s.peer && k !in s.migrated
  }

  lemma UnsettledIff(s: State)
    ensures s.peer.Keys <= s.migrated <==> forall k :: !IsUnsettled(s, k)
  {
    if !(s.peer.Keys <= s.migrated) {
      var k :| k in s.peer.Keys && k !in s.migrated;
      assert IsUnsettled(s, k);
    } else {
      forall k ensures !IsUnsettled(s, k) {
        assert k in s.peer.Keys ==> k in s.migrated;
      }
    }
  }

  /** A full read raises when there is something to settle and a value under that name: the leader's, or
      the peer's while that key is not settled. */
  predicate ReadAllRaises(s: State) {
    && !(s.peer.Keys <= s.migrated)
    && (Truthy(s.leader, SETTINGS) || (SETTINGS !in s.migrated && Truthy(s.peer, SETTINGS)))
  }

  /** `leader_get()`: every key of the peer data not yet dealt with is settled now, unless the read raises;
      then nothing is written. An empty text under the name of the parameter is not passed on. */
  function ReadAllState(s: State): State {
    if s.peer.Keys <= s.migrated || ReadAllRaises(s) then s
    else State(s.leader + (Merged(s) - {SETTINGS}), s.migrated + s.peer.Keys, s.peer)
  }

  /** `leader_get(key)`. */
  function ReadOneState(s: State, key: string): State {
    if key in s.migrated then s
    else if Truthy(s.leader, key) then s.(migrated := s.migrated + {key})
    else if Truthy(s.peer, key) then s.(leader := s.leader[key := s.peer[key]], migrated := s.migrated + {key})
    else s
  }

  /** What can happen over time: reads by the leader, its own writes, and other peer data, as after a
      change of leader. */
  datatype Event = ReadAll | ReadOne(key: string) | Write(key: string, value: Option<string>) | PeerData(bag: Bag)

  function Step(s: State, e: Event): State {
    match e
    case ReadAll => ReadAllState(s)
    case ReadOne(k) => ReadOneState(s, k)
    case Write(k, v) => s.(leader := if v.Some? then s.leader[k := v.value] else s.leader - {k})
    case PeerData(bag) => s.(peer := bag)
  }

  function Run(s: State, events: seq<Event>): State
    decreases |events|
  {
    if events == [] then s else Run(Step(s, events[0]), events[1..])
  }

  /** A read has changed the leader's value of the key. */
  predicate Copies(s: State, e: Event, k: string) {
    (e.ReadAll? || e.ReadOne?) && Lookup(Step(s, e).leader, k) != Lookup(s.leader, k)
  }

  /** A copy takes the peer's value, happens only where the leader has none, only for a key not yet
      dealt with, and settles the key. */
  lemma CopyIsFirst(s: State, e: Event, k: string)
    requires Copies(s, e, k)
    ensures !Truthy(s.leader, k) && Lookup(Step(s, e).leader, k) == Lookup(s.peer, k)
    ensures k !in s.migrated && k in Step(s, e).migrated
  {
  }

  /** When that happens: the key is not settled, the leader has no value for it and the peer one that differs, and
      the read is a full one that goes through, or asks for the key and finds a value that is not empty. */
  lemma CopyIff(s: State, e: Event, k: string)
    requires e.ReadAll? || e.ReadOne?
    ensures Copies(s, e, k) <==>
            && IsUnsettled(s, k) && !Truthy(s.leader, k) && Lookup(s.leader, k) != Lookup(s.peer, k)
            && ((e == ReadAll && !ReadAllRaises(s) && k != SETTINGS) || (e == ReadOne(k) && s.peer[k] != ""))
  {
  }

  /** Nothing is left behind: a full read that goes through copies every value that only the peer has, and
      reading one key copies that one unless the peer's text is empty. */
  lemma MissingIsCopied(s: State, k: string)
    requires k in s.peer && k !in s.migrated && !Truthy(s.leader, k)
    ensures !ReadAllRaises(s) ==>
              Lookup(ReadAllState(s).leader, k) == if k == SETTINGS then Lookup(s.leader, k) else Lookup(s.peer, k)
    ensures !ReadAllRaises(s) && k == SETTINGS ==> s.peer[k] == ""
    ensures s.peer[k] != "" ==> Lookup(ReadOneState(s, k).leader, k) == Lookup(s.peer, k)
    ensures forall other :: other != k ==> Lookup(ReadOneState(s, k).leader, other) == Lookup(s.leader, other)
  {
  }

  /** Which keys a read settles: all of the peer's unless it raises, or the one asked for if either side
      has a value. */
  lemma ReadSettles(s: State, k: string, other: string)
    ensures other in ReadAllState(s).migrated <==> other in s.migrated || (other in s.peer && !ReadAllRaises(s))
    ensures other in ReadOneState(s, k).migrated
            <==> other in s.migrated || (other == k && (Truthy(s.leader, k) || Truthy(s.peer, k)))
  {
  }

  function CountCopies(s: State, events: seq<Event>, k: string): nat
    decreases |events|
  {
    if events == [] then 0
    else (if Copies(s, events[0], k) then 1 else 0) + CountCopies(Step(s, events[0]), events[1..], k)
  }

  /** Once only: over any run a key is copied at most once, and never after it has been settled. */
  lemma {:induction false} CopiedAtMostOnce(s: State, events: seq<Event>, k: string)
    ensures CountCopies(s, events, k) <= if k in s.migrated then 0 else 1
    ensures s.migrated <= Run(s, events).migrated
    decreases |events|
  {
    if events != [] {
      if Copies(s, events[0], k) {
        CopyIsFirst(s, events[0], k);
      }
      CopiedAtMostOnce(Step(s, events[0]), events[1..], k);
    }
  }

  predicate Writes(e: Event, k: string) {
    e.Write? && e.key == k
  }

  /** A settled key belongs to the leader: whatever else happens, it keeps the value, or the absence,
      that the leader last gave it. A cleared key is not resurrected. */
  lemma {:induction false} SettledKeyStays(s: State, events: seq<Event>, k: string)
    requires k in s.migrated
    requires forall i :: 0 <= i < |events| ==> !Writes(events[i], k)
    ensures Lookup(Run(s, events).leader, k) == Lookup(s.leader, k)
    decreases |events|
  {
    if events != [] {
      assert !Writes(events[0], k);
      if Copies(s, events[0], k) {
        CopyIsFirst(s, events[0], k);
        assert false;
      }
      assert forall i :: 0 <= i < |events[1..]| ==> events[1..][i] == events[i + 1];
      SettledKeyStays(Step(s, events[0]), events[1..], k);
    }
  }

  /** A value the leader has is never overwritten by a read, settled or not. */
  lemma LeaderValueWins(s: State, e: Event, k: string)
    requires (e.ReadAll? || e.ReadOne?) && Truthy(s.leader, k)
    ensures Lookup(Step(s, e).leader, k) == Lookup(s.leader, k)
  {
  }

  lemma {:induction false} RunAppend(s: State, a: seq<Event>, b: seq<Event>)
    ensures Run(s, a + b) == Run(Run(s, a), b)
    decreases |a|
  {
    if a == [] {
      assert a + b == b;
    } else {
      assert (a + b)[0] == a[0] && (a + b)[1..] == a[1..] + b;
      RunAppend(Step(s, a[0]), a[1..], b);
    }
  }

  /** The read of `e` goes through, concerns the key and finds a value, or a peer key, to settle it with. */
  predicate Settles(s: State, e: Event, k: string) {
    || k in s.migrated
    || (e == ReadAll && k in s.peer && !ReadAllRaises(s))
    || (e == ReadOne(k) && (Truthy(s.leader, k) || Truthy(s.peer, k)))
  }

  /** That is exact: no other read settles the key. */
  lemma SettledIff(s: State, e: Event, k: string)
    requires e.ReadAll? || e.ReadOne?
    ensures k in Step(s, e).migrated <==> Settles(s, e, k)
  {
    if e.ReadOne? {
      ReadSettles(s, e.key, k);
    } else {
      ReadSettles(s, k, k);
    }
  }

  /** One read decides for good: whatever happened before, a key that a read settles keeps, through any
      run in which the leader does not write it, the leader's value of that moment if it was settled
      before or the leader had one, and else the peer's value of that moment. Only an empty peer text
      under the name of the parameter is dropped by a full read. */
  lemma ReadDecides(s: State, before: seq<Event>, e: Event, after: seq<Event>, k: string)
    requires (e.ReadAll? || e.ReadOne?) && Settles(Run(s, before), e, k)
    requires forall i :: 0 <= i < |after| ==> !Writes(after[i], k)
    ensures var first, now := Run(s, before), Run(s, before + ([e] + after));
            && k in now.migrated
            && Lookup(now.leader, k) == if k in first.migrated || Truthy(first.leader, k)
                                           || (e.ReadAll? && k == SETTINGS)
                                        then Lookup(first.leader, k) else Lookup(first.peer, k)
  {
    var at := Run(s, before);
    RunAppend(s, before, [e] + after);
    assert ([e] + after)[0] == e && ([e] + after)[1..] == after;
    var read := Step(at, e);
    SettledIff(at, e, k);
    if Truthy(at.leader, k) {
      LeaderValueWins(at, e, k);
    } else if k !in at.migrated && k in at.peer {
      MissingIsCopied(at, k);
    }
    SettledKeyStays(read, after, k);
    CopiedAtMostOnce(read, after, k);
  }

  /** A full read either settles every peer key, or raises and changes nothing; either way a second one
      does as little: the first kind changes nothing more, the second raises again, however often it is
      repeated. */
  lemma ReadAllIsIdempotent(s: State)
    ensures s.peer.Keys <= ReadAllState(s).migrated <==> !ReadAllRaises(s)
    ensures ReadAllState(ReadAllState(s)) == ReadAllState(s)
    ensures ReadAllRaises(ReadAllState(s)) <==> ReadAllRaises(s)
    ensures ReadAllRaises(s) ==> ReadAllState(s) == s
  {
  }

  lemma {:induction false} RaisingReadsChangeNothing(s: State, events: seq<Event>)
    requires ReadAllRaises(s) && forall i :: 0 <= i < |events| ==> events[i] == ReadAll
    ensures Run(s, events) == s
    decreases |events|
  {
    if events != [] {
      assert forall i :: 0 <= i < |events[1..]| ==> events[1..][i] == events[i + 1];
      RaisingReadsChangeNothing(s, events[1..]);
    }
  }

  class PeerStorage {
    const isLeader: bool
    var state: State
    var leaderSets: nat   // calls of leader-set

    constructor (isLeader: bool, state: State)
      ensures this.isLeader == isLeader && this.state == state && leaderSets == 0
    {
      this.isLeader, this.state, leaderSets := isLeader, state, 0;
    }

    /** `leader_set(**values)`: a value under the name of the first parameter is taken for that parameter.
        If it is not empty, updating it as a dictionary raises; if it is empty, it is forgotten. */
    method LeaderSet(values: Bag) returns (failure: Option<Error>)
      modifies this
      ensures failure.Some? <==> Truthy(values, SETTINGS)
      ensures failure.Some? ==> state == old(state) && leaderSets == old(leaderSets)
      ensures failure.None? ==> state == old(state).(leader := old(state).leader + (values - {SETTINGS}))
                                && leaderSets == old(leaderSets) + 1
    {
      if SETTINGS in values && values[SETTINGS] != "" {
        return Some(AttributeError);
      }
      state := state.(leader := state.leader + (values - {SETTINGS}));
      leaderSets := leaderSets + 1;
      return None;
    }

    /** `leader_get()`. It writes exactly when it settles a key. */
    method LeaderGetAll() returns (settings: Result<Bag, Error>)
      modifies this
      ensures var s := old(state);
              settings.Raise? <==> isLeader && (exists k :: IsUnsettled(s, k))
                                   && (Truthy(s.leader, SETTINGS)
                                       || (IsUnsettled(s, SETTINGS) && Truthy(s.peer, SETTINGS)))
      ensures settings.Ok? ==> forall k ::
                Lookup(settings.value, k) == if isLeader && IsUnsettled(old(state), k) && !Truthy(old(state).leader, k)
                                             then Lookup(old(state).peer, k) else Lookup(old(state).leader, k)
      ensures settings.Ok? ==> forall k :: Lookup(state.leader, k) == Lookup(if k == SETTINGS then old(state).leader
                                                                             else settings.value, k)
      ensures state.peer == old(state).peer
              && state.migrated == old(state).migrated + if isLeader && settings.Ok? then state.peer.Keys else {}
      ensures settings.Raise? <==> isLeader && ReadAllRaises(old(state))
      ensures state == if isLeader then ReadAllState(old(state)) else old(state)
      ensures settings.Ok? ==> settings.value == if isLeader then Merged(old(state)) else old(state).leader
      ensures leaderSets == old(leaderSets)
                            + if isLeader && !(old(state).peer.Keys <= old(state).migrated)
                                 && !ReadAllRaises(old(state)) then 2 else 0
    {
      UnsettledIff(state);
      if !isLeader {
        return Ok(state.leader);
      }
      var merged, migrated, settled := MergePeer();
      if settled {
        var failure := LeaderSet(merged);
        if failure.Some? {
          return Raise(failure.value);
        }
        state := state.(migrated := migrated);
        leaderSets := leaderSets + 1;
      }
      return Ok(merged);
    }

    /** The loop over the keys that are not yet dealt with. */
    method MergePeer() returns (merged: Bag, migrated: set<string>, settled: bool)
      ensures merged == Merged(state) && migrated == state.migrated + state.peer.Keys
      ensures settled <==> !(state.peer.Keys <= state.migrated)
    {
      merged, migrated, settled := state.leader, state.migrated, false;
      var keys := state.peer.Keys - migrated;
      ghost var news := keys;
      while keys != {}
        invariant keys <= news
        invariant migrated == state.migrated + (news - keys)
        invariant merged == map k | k in state.leader.Keys + (news - keys)
                               :: if k in news - keys && !Truthy(state.leader, k)
                                  then state.peer[k] else state.leader[k]
        invariant settled <==> keys != news
        decreases keys
      {
        var key :| key in keys;
        if !Truthy(merged, key) {
          merged := merged[key := state.peer[key]];
        }
        settled := true;
        migrated := migrated + {key};
        keys := keys - {key};
      }
      assert news - {} == news;
    }

    /** `leader_get(key)`. */
    method LeaderGet(key: string) returns (value: Option<string>)
      modifies this
      ensures state == if isLeader then ReadOneState(old(state), key) else old(state)
      ensures value == Lookup(state.leader, key)
      ensures value == if isLeader && IsUnsettled(old(state), key) && !Truthy(old(state).leader, key)
                          && Truthy(old(state).peer, key)
                       then Lookup(old(state).peer, key) else Lookup(old(state).leader, key)
      ensures leaderSets == old(leaderSets) + (if state.leader != old(state).leader then 1 else 0)
                            + if state.migrated != old(state).migrated then 1 else 0
    {
      value := Lookup(state.leader, key);
      if !isLeader || key in state.migrated {
        return;
      }
      if value.None? || value.value == "" {
        if Truthy(state.peer, key) {
          state := state.(leader := state.leader[key := state.peer[key]]);
          leaderSets := leaderSets + 1;
          value := Some(state.peer[key]);
        }
      }
      if value.Some? && value.value != "" {
        state := state.(migrated := state.migrated + {key});
        leaderSets := leaderSets + 1;
      }
    }
  }

  /** It does happen: peer data with a value under the parameter's name, and a leader value under that name
      as soon as another key is to be settled. */
  method SettingsKeyRaises() returns (fromPeer: Result<Bag, Error>, fromLeader: Result<Bag, Error>)
    ensures fromPeer.Raise? && fromLeader.Raise?
  {
    var p := new PeerStorage(true, State(map[], {}, map[SETTINGS := "x"]));
    assert SETTINGS in p.state.peer.Keys && ReadAllRaises(p.state);
    fromPeer := p.LeaderGetAll();
    var l := new PeerStorage(true, State(map[SETTINGS := "x"], {}, map["a" := "1"]));
    assert "a" in l.state.peer.Keys && ReadAllRaises(l.state);
    fromLeader := l.LeaderGetAll();
  }
}
