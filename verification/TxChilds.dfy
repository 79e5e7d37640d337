/** The map from a transaction (pooled or not) to the pool transactions that spend it. */
module TxChildsMap {
  import opened Types
  import opened PoolTxs

  function ChildsOf(childs: map<Txid, set<Txid>>, p: Txid): set<Txid> {
    if p in childs then childs[p] else {}
  }

  /** The map lists exactly the pool's spenders, and keeps no empty entries. */
  ghost predicate ChildsAgree(childs: map<Txid, set<Txid>>, txs: Txs) {
    && (forall p :: ChildsOf(childs, p) == Spenders(txs, p))
    && (forall p :: p in childs ==> childs[p] != {})
  }

  class TxChilds {
    var childs: map<Txid, set<Txid>>

    constructor ()
      ensures childs == map[]
    {
      childs := map[];
    }

    constructor Clone(other: TxChilds)
      ensures childs == other.childs
    {
      childs := other.childs;
    }

    method Insert(txid: Txid, child: Txid) returns (present: bool)
      modifies this
      ensures present <==> child in ChildsOf(old(childs), txid)
      ensures childs == old(childs)[txid := ChildsOf(old(childs), txid) + {child}]
    {
      present := child in ChildsOf(childs, txid);
      childs := childs[txid := ChildsOf(childs, txid) + {child}];
    }

    method Remove(txid: Txid, child: Txid) returns (present: bool)
      modifies this
      ensures present <==> child in ChildsOf(old(childs), txid)
      ensures forall p :: ChildsOf(childs, p) == ChildsOf(old(childs), p) - (if p == txid then {child} else {})
      ensures (forall p :: p in old(childs) ==> old(childs)[p] != {}) ==> forall p :: p in childs ==> childs[p] != {}
    {
      if txid !in childs {
        return false;
      }
      present := child in childs[txid];
      var rest := childs[txid] - {child};
      childs := if rest == {} then childs - {txid} else childs[txid := rest];
    }
  }
}
