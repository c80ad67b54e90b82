/** streaming/session.go, garbageCollectPlaybackSessions, run as one atomic pass. */
module SessionCollection {
  import opened SessionTable
  import opened PlaybackSessions

  /** The mapped sessions by (stream, user), each listed once. */
  ghost predicate Grouped<S>(groups: map<Group, seq<S>>, st: State<S>, keys: set<Key>) {
    && (forall g :: g in groups ==> groups[g] != [] && GroupListed(groups[g], g, st, keys))
    && (forall k :: k in keys ==> k in st.table && GroupOf(k) in groups && st.table[k] in groups[GroupOf(k)])
  }

  ghost predicate GroupListed<S>(members: seq<S>, g: Group, st: State<S>, keys: set<Key>) {
    && (forall i :: 0 <= i < |members| ==>
          && Mapped(st, members[i]) && GroupOf(st.info[members[i]].key) == g && st.info[members[i]].key in keys)
    && (forall i, j :: 0 <= i < j < |members| ==> members[i] != members[j])
  }

  ghost predicate IsNewest<S>(s: S, members: seq<S>, st: State<S>)
    requires forall t :: t in members ==> t in st.info
  {
    s in members && forall t :: t in members ==> st.info[t].accessed <= st.info[s].accessed
  }

  ghost function Others<S>(members: seq<S>, s: S): set<S> {
    set t | t in members && t != s
  }

  /** First loop: append every session of the map, in whatever order, to its group. */
  method BuildGroups(m: PlaybackSessionManager) returns (groups: map<Group, seq<PlaybackSession>>)
    requires m.Valid()
    ensures Grouped(groups, m.View(), m.sessions.Keys)
  {
    ghost var st := m.View();
    groups := map[];
    var rest := m.sessions.Keys;
    ghost var keys := {};
    while rest != {}
      invariant rest + keys == m.sessions.Keys && rest !! keys
      invariant Grouped(groups, st, keys)
      decreases rest
    {
      var key :| key in rest;
      var s := m.sessions[key];
      var g := GroupOf(s.key);
      assert st.table[key] in st.info && st.info[s].key == key;
      var members := if g in groups then groups[g] else [];
      groups := Appended(groups, members, g, s, st, keys, key);
      rest, keys := rest - {key}, keys + {key};
    }
  }

  /** The map with `s` appended to its group. */
  function Appended<S(==)>(groups: map<Group, seq<S>>, members: seq<S>, g: Group, s: S,
                                     ghost st: State<S>, ghost keys: set<Key>, ghost key: Key)
    : (groups': map<Group, seq<S>>)
    requires Grouped(groups, st, keys) && members == (if g in groups then groups[g] else [])
    requires Mapped(st, s) && st.info[s].key == key && GroupOf(key) == g && key !in keys
    requires key in st.table && st.table[key] == s
    ensures Grouped(groups', st, keys + {key})
  {
    groups[g := members + [s]]
  }

  /** A collection under way has not changed when a session was last accessed. */
  lemma LastAccess(m: PlaybackSessionManager, st: State<PlaybackSession>, keep: set<PlaybackSession>,
      s: PlaybackSession)
    requires m.View() == AfterCollect(st, keep) && s in st.info
    ensures s in m.all && s.lastAccessed == st.info[s].accessed
  {
    assert s in m.View().info;
    assert m.View().info[s] == s.View();
  }

  /** Inner loops of the second half, for one group: the session accessed last. */
  method FindNewest(m: PlaybackSessionManager, members: seq<PlaybackSession>, ghost st: State<PlaybackSession>,
                    ghost keep: set<PlaybackSession>)
    returns (newestSession: PlaybackSession)
    requires m.View() == AfterCollect(st, keep) && members != [] && (forall s :: s in members ==> s in st.info)
    ensures IsNewest(newestSession, members, st)
  {
    newestSession := members[0];
    for i := 0 to |members|
      invariant newestSession in members
      invariant forall j :: 0 <= j < i ==> st.info[members[j]].accessed <= st.info[newestSession].accessed
    {
      var s := members[i];
      LastAccess(m, st, keep, s);
      LastAccess(m, st, keep, newestSession);
      if s.lastAccessed > newestSession.lastAccessed {
        newestSession := s;
      }
    }
  }

  method RemoveOneMore(m: PlaybackSessionManager, s: PlaybackSession, ghost st: State<PlaybackSession>,
                       ghost keep: set<PlaybackSession>)
    requires Inv(st) && m.View() == AfterCollect(st, keep) && Mapped(st, s) && s in keep
    modifies m`sessions, m.all
    ensures m.View() == AfterCollect(st, keep - {s})
  {
    CollectOneMore(st, keep, s);
    assert s in m.View().info;
    m.RemovePlaybackSession(s);
  }

  lemma OthersStep<S>(members: seq<S>, i: nat, s: S)
    requires i < |members|
    ensures Others(members[..i + 1], s) == Others(members[..i], s) + if members[i] == s then {} else {members[i]}
    ensures (forall j, k :: 0 <= j < k < |members| ==> members[j] != members[k]) ==>
              members[i] !in Others(members[..i], s)
  {
    assert members[..i + 1] == members[..i] + [members[i]];
  }

  /** Removing all others of the group. */
  method RemoveOthers(m: PlaybackSessionManager, members: seq<PlaybackSession>, newestSession: PlaybackSession,
                      ghost st: State<PlaybackSession>, ghost keep: set<PlaybackSession>)
    requires Inv(st) && m.View() == AfterCollect(st, keep)
    requires forall s :: s in members ==> Mapped(st, s) && s in keep
    requires forall i, j :: 0 <= i < j < |members| ==> members[i] != members[j]
    modifies m`sessions, m.all
    ensures m.View() == AfterCollect(st, keep - Others(members, newestSession))
  {
    ghost var all, left := m.all, keep;
    for i := 0 to |members|
      invariant m.all == all && left == keep - Others(members[..i], newestSession)
      invariant m.View() == AfterCollect(st, left)
    {
      OthersStep(members, i, newestSession);
      if members[i] != newestSession {
        RemoveOneMore(m, members[i], st, left);
        left := left - {members[i]};
      }
    }
    assert members[..|members|] == members;
  }

  method CollectGroup(m: PlaybackSessionManager, members: seq<PlaybackSession>, ghost st: State<PlaybackSession>,
                      ghost keep: set<PlaybackSession>, ghost g: Group)
    returns (newestSession: PlaybackSession)
    requires Inv(st) && m.View() == AfterCollect(st, keep) && members != []
    requires GroupListed(members, g, st, st.table.Keys) && (forall s :: s in members ==> s in keep)
    modifies m`sessions, m.all
    ensures m.View() == AfterCollect(st, keep - Others(members, newestSession))
    ensures (forall s :: s in members ==> s in st.info) && IsNewest(newestSession, members, st)
  {
    if |members| > 1 {
      newestSession := FindNewest(m, members, st, keep);
      RemoveOthers(m, members, newestSession, st, keep);
    } else {
      newestSession := members[0];
      assert keep - Others(members, newestSession) == keep;
    }
  }

  ghost predicate Picked<S>(newest: map<Group, S>, groups: map<Group, seq<S>>, st: State<S>)
    requires Grouped(groups, st, st.table.Keys)
  {
    forall g :: g in newest ==> g in groups && IsNewest(newest[g], groups[g], st)
  }

  /** What is still mapped: every session of a group not yet visited, and the picked one of the others. */
  ghost function Remaining<S>(st: State<S>, newest: map<Group, S>): set<S> {
    set s | s in MappedSet(st) && (GroupOf(st.info[s].key) in newest ==> newest[GroupOf(st.info[s].key)] == s)
  }

  lemma PickedSurvive<S>(newest: map<Group, S>, groups: map<Group, seq<S>>, st: State<S>)
    requires Inv(st) && Grouped(groups, st, st.table.Keys) && Picked(newest, groups, st)
    requires newest.Keys == groups.Keys
    ensures Survivors(st, Remaining(st, newest))
  {
    var keep := Remaining(st, newest);
    forall k | k in st.table && st.table[k] in st.info ensures Outlived(st, keep, st.table[k]) {
      var g, t := GroupOf(k), st.table[k];
      var s := newest[g];
      assert IsNewest(s, groups[g], st) && t in groups[g];
      assert GroupListed(groups[g], g, st, st.table.Keys);
      assert s in keep && SameGroup(st.info[s], st.info[t]);
    }
    forall s, t | s in keep && t in keep && SameGroup(st.info[s], st.info[t]) ensures s == t {
      assert st.info[s].key in st.table && st.info[t].key in st.table;
    }
  }

  lemma PickOne<S>(newest: map<Group, S>, groups: map<Group, seq<S>>, st: State<S>, g: Group, s: S)
    requires Inv(st) && Grouped(groups, st, st.table.Keys) && Picked(newest, groups, st)
    requires g in groups && g !in newest && IsNewest(s, groups[g], st)
    ensures Picked(newest[g := s], groups, st)
    ensures Remaining(st, newest[g := s]) == Remaining(st, newest) - Others(groups[g], s)
  {
    assert GroupListed(groups[g], g, st, st.table.Keys);
    forall t | t in MappedSet(st) && GroupOf(st.info[t].key) == g ensures t in groups[g] {
      assert st.info[t].key in st.table.Keys;
    }
  }

  /** The whole pass: of each (stream, user) the session accessed last stays, the others are removed and
      lose the table's reference. */
  method GarbageCollectPlaybackSessions(m: PlaybackSessionManager)
    requires m.Valid()
    modifies m`sessions, m.all
    ensures exists keep :: Survivors(old(m.View()), keep) && m.View() == AfterCollect(old(m.View()), keep)
    ensures OneLeftPerGroup(old(m.View()), m.View()) && m.Valid()
  {
    ghost var st := m.View();
    var groups := BuildGroups(m);
    var rest := groups.Keys;
    ghost var newest: map<Group, PlaybackSession> := map[];
    CollectNone(st);
    assert Remaining(st, newest) == MappedSet(st);
    ghost var all := m.all;
    while rest != {}
      invariant m.all == all && rest <= groups.Keys && newest.Keys == groups.Keys - rest
      invariant Picked(newest, groups, st)
      invariant m.View() == AfterCollect(st, Remaining(st, newest))
      decreases rest
    {
      var g :| g in rest;
      assert GroupListed(groups[g], g, st, st.table.Keys);
      var s := CollectGroup(m, groups[g], st, Remaining(st, newest), g);
      PickOne(newest, groups, st, g, s);
      newest := newest[g := s];
      rest := rest - {g};
    }
    PickedSurvive(newest, groups, st);
    CollectKeeps(st, Remaining(st, newest));
    CollectLeavesOne(st, Remaining(st, newest));
  }
}
