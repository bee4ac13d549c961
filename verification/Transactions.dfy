/** A transaction: its id, its status and the writes it has made. */
module Transactions {
  import opened Rows

  datatype TxnStatus = Active | Committed | Aborted

  class Transaction {
    const id: nat
    var status: TxnStatus
    var writeLog: seq<WriteRecord>

    constructor (id: nat)
      ensures this.id == id && status == Active && writeLog == []
    {
      this.id := id;
      status := Active;
      writeLog := [];
    }

    predicate IsActive()
      reads this
    {
      status == Active
    }

    method LogWrite(record: WriteRecord)
      modifies this`writeLog
      ensures writeLog == old(writeLog) + [record]
    {
      writeLog := writeLog + [record];
    }
  }
}
