/**
 An abstract session store standing in for `session.Manager`: it hands out a
 fresh identifier on `Start`, keeps a string-keyed value map per live session
 (`Set`), and forgets the session named by a request's cookie on `Destroy`.
 Identifiers are drawn from a counter, so a new one never collides with a
 live one.
 */
module Sessions {
  import opened Outcomes

  type SessionId = nat

  datatype Store = Store(live: map<SessionId, map<string, string>>, next: SessionId) {
    /** Every live identifier was handed out before `next`. */
    predicate Valid() {
      forall id :: id in live ==> id < next
    }
  }

  datatype Started = Started(id: SessionId, store: Store)

  /** The store before any session exists. */
  const Empty := Store(map[], 0)

  /** `sessions.Start`: a new, empty session under an identifier that no live
      session uses; every existing session is kept as it was. */
  function Start(s: Store): (r: Started)
    requires s.Valid()
    ensures r.store.Valid()
    ensures r.id !in s.live
    ensures r.store.live.Keys == s.live.Keys + {r.id}
    ensures r.store.live[r.id] == map[]
    ensures forall id :: id in s.live ==> r.store.live[id] == s.live[id]
  {
    Started(s.next, Store(s.live[s.next := map[]], s.next + 1))
  }

  /** `session.Set(key, value)` on the live session `id`; no other session
      and no other key of this one changes. */
  function Set(s: Store, id: SessionId, key: string, value: string): (r: Store)
    requires id in s.live
    ensures s.Valid() ==> r.Valid()
    ensures r.live.Keys == s.live.Keys
    ensures key in r.live[id] && r.live[id][key] == value
    ensures forall k :: k in s.live[id] && k != key ==> k in r.live[id] && r.live[id][k] == s.live[id][k]
    ensures r.live[id].Keys == s.live[id].Keys + {key}
    ensures forall other :: other in s.live && other != id ==> r.live[other] == s.live[other]
  {
    s.(live := s.live[id := s.live[id][key := value]])
  }

  /** `sessions.Destroy`: forget the session the request's cookie names, if
      any; a request without a (live) session leaves the store as it is. */
  function Destroy(s: Store, cookie: Option<SessionId>): (r: Store)
    ensures s.Valid() ==> r.Valid()
    ensures r.next == s.next
    ensures cookie.Some? ==> r.live.Keys == s.live.Keys - {cookie.value}
    ensures cookie.None? ==> r == s
    ensures forall id :: id in r.live ==> r.live[id] == s.live[id]
  {
    match cookie
    case None => s
    case Some(id) => s.(live := s.live - {id})
  }

  /** Destroying a session that was added to `s` gives `s` back. */
  lemma DestroyUndoesAdd(s: Store, t: Store, id: SessionId)
    requires id !in s.live && t.live.Keys == s.live.Keys + {id}
    requires forall other :: other in s.live ==> t.live[other] == s.live[other]
    ensures Destroy(t, Some(id)).live == s.live
  {
    var r := Destroy(t, Some(id));
    assert r.live.Keys == s.live.Keys;
  }

  /** Destroying twice is destroying once. */
  lemma DestroyIdempotent(s: Store, cookie: Option<SessionId>)
    ensures Destroy(Destroy(s, cookie), cookie) == Destroy(s, cookie)
  {
  }
}
