/** Identifiers, transactions and machine-integer helpers shared by the other modules. */
module Types {
  // Txids and block hashes are 256-bit hashes; only equality and a total order
  // (the one `OrdSet<Txid>` iterates in) are ever used.
  type Txid = nat
  type BlockHash = nat

  const U64_MAX: nat := 0xFFFF_FFFF_FFFF_FFFF
  const U32_MAX: nat := 0xFFFF_FFFF
  const WITNESS_SCALE_FACTOR: nat := 4

  datatype Option<+T> = None | Some(value: T)

  datatype OutPoint = OutPoint(txid: Txid, vout: nat)

  /** A transaction. `txid` stands for the hash of the other fields; `output` lists the output values. */
  datatype Transaction = Transaction(txid: Txid, input: seq<OutPoint>, output: seq<nat>, weight: nat)
  {
    /** The distinct txids whose outputs this transaction spends. */
    function Parents(): set<Txid> {
      set o | o in input :: o.txid
    }

    /** Virtual size: a quarter of the weight, rounded up. */
    function Vsize(): nat {
      VbytesCeil(weight)
    }
  }

  function VbytesCeil(weight: nat): nat {
    (weight + WITNESS_SCALE_FACTOR - 1) / WITNESS_SCALE_FACTOR
  }

  /** `Weight::from_vb`: multiplication checked against u64. */
  function WeightFromVb(vsize: nat): Option<nat> {
    if vsize * WITNESS_SCALE_FACTOR <= U64_MAX then Some(vsize * WITNESS_SCALE_FACTOR) else None
  }

  function Min(a: nat, b: nat): nat {
    if a <= b then a else b
  }

  function SaturatingAdd(a: nat, b: nat): nat {
    Min(a + b, U64_MAX)
  }

  function SaturatingSub(a: nat, b: nat): nat {
    if a <= b then 0 else a - b
  }

  /** `saturating_add_signed`: the weight a transaction is given when the enforcer asks for a tweak. */
  function ModifiedWeight(weight: nat, tweak: int): nat {
    if weight + tweak < 0 then 0 else Min(weight + tweak, U64_MAX)
  }
}
