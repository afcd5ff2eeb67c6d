/**
 * Short-term conversation memory (app/memory.py): per session, a bounded
 * FIFO of the last `MaxMemoryTurns` (user, assistant) exchanges, plus a
 * per-session "active file" hint. The two process-wide dictionaries become
 * one immutable `Store`; each mutation is a function returning the new store.
 */
module Memory {
  import opened Util

  /** Maximum number of exchanges kept per session (`deque(maxlen=5)`). */
  const MaxMemoryTurns: nat := 5

  datatype Turn = Turn(user: string, assistant: string)

  datatype Store = Store(sessions: map<string, seq<Turn>>, active: map<string, string>)

  const Empty := Store(map[], map[])

  /** Every session's deque respects its `maxlen`. */
  predicate Bounded(st: Store) {
    forall sid :: sid in st.sessions ==> |st.sessions[sid]| <= MaxMemoryTurns
  }

  /** `deque.append` on a deque with `maxlen`: when full, the oldest turn is
      discarded. */
  function Push(q: seq<Turn>, t: Turn): (r: seq<Turn>)
    ensures |q| <= MaxMemoryTurns ==> |r| <= MaxMemoryTurns
    ensures |r| > 0 && r[|r| - 1] == t
    ensures |q| < MaxMemoryTurns ==> r == q + [t]
    ensures |q| == MaxMemoryTurns ==> |r| == MaxMemoryTurns && r[..|r| - 1] == q[1..]
  {
    if |q| < MaxMemoryTurns then q + [t] else q[1..] + [t]
  }

  /** The last `min(|s|, MaxMemoryTurns)` elements of `s`. */
  function Window(s: seq<Turn>): (r: seq<Turn>)
    ensures |r| <= MaxMemoryTurns
  {
    if |s| <= MaxMemoryTurns then s else s[|s| - MaxMemoryTurns..]
  }

  /** One rendered exchange. */
  function RenderTurn(t: Turn): string {
    "User: " + t.user + "\nAssistant: " + t.assistant
  }

  function RenderTurns(ts: seq<Turn>): (r: seq<string>)
    ensures |r| == |ts|
    ensures forall k :: 0 <= k < |ts| ==> r[k] == RenderTurn(ts[k])
  {
    if ts == [] then [] else [RenderTurn(ts[0])] + RenderTurns(ts[1..])
  }

  /** `get_session_context`: the session's turns, oldest first, joined by
      newlines; a session never updated yields the empty string. */
  function GetSessionContext(st: Store, sid: string): (ctx: string)
    ensures sid !in st.sessions ==> ctx == ""
    ensures sid in st.sessions && |st.sessions[sid]| == 1 ==> ctx == RenderTurn(st.sessions[sid][0])
  {
    var turns := if sid in st.sessions then st.sessions[sid] else [];
    Join(RenderTurns(turns), "\n")
  }

  /** `update_session_memory`: append one exchange to the session (creating
      it on first use); no other session and no active-file hint changes. */
  function UpdateSessionMemory(st: Store, sid: string, user: string, assistant: string): (st': Store)
    ensures sid in st'.sessions
    ensures st'.sessions.Keys == st.sessions.Keys + {sid}
    ensures forall other :: other in st.sessions && other != sid ==> st'.sessions[other] == st.sessions[other]
    ensures st'.active == st.active
    ensures Bounded(st) ==> Bounded(st')
    ensures |st'.sessions[sid]| >= 1 && st'.sessions[sid][|st'.sessions[sid]| - 1] == Turn(user, assistant)
  {
    var q := if sid in st.sessions then st.sessions[sid] else [];
    st.(sessions := st.sessions[sid := Push(q, Turn(user, assistant))])
  }

  /** `get_last_active_file`: the last value set for the session, if any. */
  function GetLastActiveFile(st: Store, sid: string): (f: Option<string>)
    ensures f.Some? <==> sid in st.active
    ensures f.Some? ==> f.value == st.active[sid]
  {
    if sid in st.active then Some(st.active[sid]) else None
  }

  /** `set_last_active_file`: remember `filename` for this session only. */
  function SetLastActiveFile(st: Store, sid: string, filename: string): (st': Store)
    ensures GetLastActiveFile(st', sid) == Some(filename)
    ensures forall other :: other != sid ==> GetLastActiveFile(st', other) == GetLastActiveFile(st, other)
    ensures st'.sessions == st.sessions
  {
    st.(active := st.active[sid := filename])
  }

  // ---------------------------------------------------------------------
  // Properties over sequences of updates
  // ---------------------------------------------------------------------

  /** Apply `update_session_memory` once per exchange, in order. */
  function UpdateAll(st: Store, sid: string, turns: seq<Turn>): Store
    decreases |turns|
  {
    if turns == [] then st
    else
      var t := turns[|turns| - 1];
      UpdateSessionMemory(UpdateAll(st, sid, turns[..|turns| - 1]), sid, t.user, t.assistant)
  }

  lemma WindowPush(s: seq<Turn>, t: Turn)
    ensures Push(Window(s), t) == Window(s + [t])
  {
    var w := Window(s);
    if |s| < MaxMemoryTurns {
    } else if |s| == MaxMemoryTurns {
      assert w == s;
      assert (s + [t])[|s + [t]| - MaxMemoryTurns..] == s[1..] + [t];
    } else {
      assert w[1..] + [t] == (s + [t])[|s + [t]| - MaxMemoryTurns..];
    }
  }

  /** Starting from a session that has never been updated, after k updates
      the session holds exactly the last min(k, 5) exchanges, oldest first. */
  lemma {:induction false} UpdateAllKeepsWindow(st: Store, sid: string, turns: seq<Turn>)
    requires sid !in st.sessions
    ensures turns != [] ==> sid in UpdateAll(st, sid, turns).sessions
                            && UpdateAll(st, sid, turns).sessions[sid] == Window(turns)
    ensures turns == [] ==> UpdateAll(st, sid, turns) == st
    decreases |turns|
  {
    if turns != [] {
      var init := turns[..|turns| - 1];
      var t := turns[|turns| - 1];
      assert init + [t] == turns;
      UpdateAllKeepsWindow(st, sid, init);
      WindowPush(init, t);
    }
  }

  /** A session never holds more than five exchanges. */
  lemma {:induction false} UpdateAllBounded(st: Store, sid: string, turns: seq<Turn>)
    requires Bounded(st)
    ensures Bounded(UpdateAll(st, sid, turns))
    decreases |turns|
  {
    if turns != [] {
      UpdateAllBounded(st, sid, turns[..|turns| - 1]);
    }
  }

  /** The newest exchange is rendered last in the session's context. */
  lemma ContextEndsWithNewest(st: Store, sid: string, user: string, assistant: string)
    ensures EndsWith(GetSessionContext(UpdateSessionMemory(st, sid, user, assistant), sid),
                     RenderTurn(Turn(user, assistant)))
  {
    var st' := UpdateSessionMemory(st, sid, user, assistant);
    var q := st'.sessions[sid];
    var init := q[..|q| - 1];
    assert q == init + [Turn(user, assistant)];
    var rs := RenderTurns(q);
    assert rs == RenderTurns(init) + [RenderTurn(Turn(user, assistant))];
    JoinAppend(RenderTurns(init), RenderTurn(Turn(user, assistant)), "\n");
  }

  /** Reading a context is a pure query: in particular an unknown session
      is not created by it, and its first update starts from an empty log. */
  lemma FirstUpdateStartsFresh(st: Store, sid: string, user: string, assistant: string)
    requires sid !in st.sessions
    ensures GetSessionContext(st, sid) == ""
    ensures UpdateSessionMemory(st, sid, user, assistant).sessions[sid] == [Turn(user, assistant)]
    ensures GetSessionContext(UpdateSessionMemory(st, sid, user, assistant), sid)
            == "User: " + user + "\nAssistant: " + assistant
  {
  }
}
