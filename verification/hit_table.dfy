/**
 * The dashboard's per-server hit table (frontend/src/LoadBalanceDashboard.jsx,
 * the `setServers` updater inside `startLoad`): after each `/visit` reply the
 * responding server's entry is bumped, every other entry is copied as it was.
 * The timer, the `fetch` and the JSON parsing around it are not modelled.
 */
module HitTable {

  /** The `time` field of a `/visit` reply, kept as received. */
  type Time = string

  /** The fields of a `/visit` reply that the updater reads. */
  datatype VisitReply = VisitReply(server: string, visitCount: int, time: Time)

  /** One row of the hit table. */
  datatype ServerInfo = ServerInfo(hits: nat, lastVisitCount: int, lastTime: Time)

  /** The `servers` state, keyed by hostname. */
  type Table = map<string, ServerInfo>

  /**
   * The updater, which spreads `prev` into a new object: the responding
   * server's entry counts one more hit (its first when it had no entry, the
   * `prev[server] || {...}` default) and records the reply's visit count and
   * time; no entry is removed and every other entry is unchanged.
   */
  function RecordVisit(prev: Table, reply: VisitReply): (next: Table)
    ensures next.Keys == prev.Keys + {reply.server}
    ensures next[reply.server].hits == (if reply.server in prev then prev[reply.server].hits else 0) + 1
    ensures next[reply.server].lastVisitCount == reply.visitCount
    ensures next[reply.server].lastTime == reply.time
    ensures forall s :: s in prev && s != reply.server ==> next[s] == prev[s]
  {
    var prevHits := if reply.server in prev then prev[reply.server].hits else 0;
    prev[reply.server := ServerInfo(prevHits + 1, reply.visitCount, reply.time)]
  }

  /**
   * The table after the updater has been applied for each of `replies`, in
   * order, from an empty table: every entry has at least one hit and no more
   * hits than there were replies.
   */
  function Replay(replies: seq<VisitReply>): (table: Table)
    ensures forall s :: s in table ==> 1 <= table[s].hits <= |replies|
  {
    if replies == [] then map[]
    else RecordVisit(Replay(replies[..|replies| - 1]), replies[|replies| - 1])
  }

  /** How many of `replies` came from `server`. */
  function RepliesFrom(replies: seq<VisitReply>, server: string): nat
  {
    if replies == [] then 0
    else RepliesFrom(replies[..|replies| - 1], server) + (if replies[|replies| - 1].server == server then 1 else 0)
  }

  /**
   * Starting from the empty table, a server has an entry exactly when some
   * reply came from it; its hit count is the number of its replies (none for
   * a server without an entry), and its last visit count and time are those
   * of its latest reply.
   */
  lemma {:induction false} ReplayCountsHits(replies: seq<VisitReply>, server: string)
    ensures server in Replay(replies) <==> exists k :: 0 <= k < |replies| && replies[k].server == server
    ensures server !in Replay(replies) ==> RepliesFrom(replies, server) == 0
    ensures server in Replay(replies) ==>
              && Replay(replies)[server].hits == RepliesFrom(replies, server)
              && exists k :: 0 <= k < |replies| && replies[k].server == server &&
                             Replay(replies)[server].lastVisitCount == replies[k].visitCount &&
                             Replay(replies)[server].lastTime == replies[k].time &&
                             forall k' :: k < k' < |replies| ==> replies[k'].server != server
  {
    if replies != [] {
      var init, last := replies[..|replies| - 1], replies[|replies| - 1];
      ReplayCountsHits(init, server);
      assert forall k :: 0 <= k < |init| ==> init[k] == replies[k];
      if last.server == server {
        assert replies[|replies| - 1].server == server;
      }
    }
  }

}
