/** STATFS from the shards to the user's callback. */
module StatfsEndToEnd {
  import opened MetaTypes
  import opened Bytes
  import opened Sums
  import opened Statfs
  import opened Wire

  /** The bytes that the reply message of the last shard turns into. */
  function ReplyBytes(r: Reply): seq<Byte> {
    ReplyBody(OP_STATFS, if r.failed then IO_ERROR else IO_SUCCESS,
              if r.sums.Some? then Some(Pair(r.sums.value.0, r.sums.value.1)) else None)
  }

  /**
   With every allocation granted, any interleaving that has run to its end has sent one reply,
   and the user's callback gets the 64-bit sums over the shards that answered and an error
   exactly when some shard failed.
   */
  lemma StatfsDelivered(stats: seq<ShardStat>, acts: seq<Act>, states: seq<State>)
    requires |stats| > 0 && Run(stats, acts, states) && Stuck(stats, states[|acts|])
    requires AllocationsSucceed(acts)
    ensures |states[|acts|].out.replies| == 1
    ensures ClientDecode(StatfsCall, Some(ReplyBytes(states[|acts|].out.replies[0])))
            == StatfsDone(if SomeFailed(stats) then IO_ERROR else IO_SUCCESS,
                          Sum(Totals(stats)) % U64, Sum(Useds(stats)) % U64)
  {
    hide Stuck, Sum, Totals, Useds, ClientDecode, ReplyBody, Pair;
    StatfsCompletes(stats, acts, states);
    var r := states[|acts|].out.replies[0];
    DecodeStatfs(if r.failed then IO_ERROR else IO_SUCCESS, r.sums.value.0, r.sums.value.1);
  }
}
