/** A node's database.  The program keeps all records in one key-value store under different key prefixes; here
    each kind of record has a map of its own. */
module Database {
  import opened Types
  import UtxoSpec

  datatype WriteOp = Put(key: Bytes, entry: seq<IndexedOutput>) | Delete(key: Bytes)

  function ApplyBatch(m: UtxoSpec.Index, batch: seq<WriteOp>): UtxoSpec.Index {
    if batch == [] then m
    else
      var m' := ApplyBatch(m, batch[..|batch| - 1]);
      match batch[|batch| - 1]
      case Put(key, entry) => m'[key := entry]
      case Delete(key) => m' - {key}
  }

  class LevelDB {
    var blocks: map<Bytes, Block>
    var headers: map<Bytes, BlockHeader>
    var utxo: UtxoSpec.Index
    var lastHash: Bytes

    constructor ()
      ensures blocks == map[] && headers == map[] && utxo == map[] && lastHash == []
    {
      blocks, headers, utxo, lastHash := map[], map[], map[], [];
    }

    method Write(batch: seq<WriteOp>)
      modifies this`utxo
      ensures utxo == ApplyBatch(old(utxo), batch)
    {
      var i := 0;
      while i < |batch|
        invariant 0 <= i <= |batch| && utxo == ApplyBatch(old(utxo), batch[..i])
      {
        assert batch[..i + 1][..i] == batch[..i];
        match batch[i] {
          case Put(key, entry) => utxo := utxo[key := entry];
          case Delete(key) => utxo := utxo - {key};
        }
        i := i + 1;
      }
      assert batch[..i] == batch;
    }
  }
}
