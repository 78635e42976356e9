/**
 The key-value store as the event index sees it: one field per bucket. A value kept
 in binary form by the store is kept as its bytes here.
 */
module Store {
  import opened Common
  import opened Words
  import opened Bloom

  /** The key of a stored filter window. */
  datatype RangeKey = RangeKey(fromBlock: nat, toBlock: nat)

  class Database {
    var height: Option<nat>                          // chain height
    var commitments: set<nat>                        // blocks with commitments: the fully retained ones
    var hashes: map<nat, Felt>                       // block number to header hash
    var blocks: map<nat, seq<TransactionEvents>>     // block number to the events of its receipts
    var filters: map<RangeKey, seq<Byte>>            // window to marshalled aggregated filter
    var snapshot: Option<seq<Byte>>                  // marshalled running filter

    constructor ()
      ensures height.None? && commitments == {} && blocks == map[] && filters == map[] && snapshot.None?
    {
      height, commitments, hashes, blocks, filters, snapshot := None, {}, map[], map[], map[], None;
    }
  }

  /** The first entry of the ordered commitments scan: the lowest fully retained block. */
  method OldestRetainedBlock(commitments: set<nat>) returns (r: Option<nat>)
    ensures r.None? <==> commitments == {}
    ensures r.Some? ==> r.value in commitments && forall b :: b in commitments ==> r.value <= b
  {
    if commitments == {} {
      return None;
    }
    var some :| some in commitments;
    LeastExists(commitments, some);
    var oldest :| oldest in commitments && forall b :: b in commitments ==> oldest <= b;
    return Some(oldest);
  }
}
