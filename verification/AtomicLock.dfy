/** The lock that callers of lock_* and of the rw_lock reason with. */
module AtomicLock {
  type Tid = nat

  /** What a caller sees of a lock: who may write and who may read. */
  datatype Holders = Holders(writers: set<Tid>, readers: set<Tid>) {
    predicate Exclusive() {
      && (forall t, u :: t in writers && u in writers ==> t == u)
      && (writers != {} ==> readers == {})
    }

    predicate CanWrite() { writers == {} && readers == {} }
    predicate CanRead() { writers == {} }

    function TakeWrite(t: Tid): Holders { Holders(writers + {t}, readers) }
    function TakeRead(t: Tid): Holders { Holders(writers, readers + {t}) }
    function DropWrite(t: Tid): Holders { Holders(writers - {t}, readers) }
    function DropRead(t: Tid): Holders { Holders(writers, readers - {t}) }
  }

  const Unheld := Holders({}, {})

  /** One atomic step of the lock as its callers use it. */
  predicate HoldersStep(l: Holders, l': Holders, t: Tid) {
    || l' == l
    || (l.CanWrite() && l' == l.TakeWrite(t))
    || (l.CanRead() && t !in l.readers && l' == l.TakeRead(t))
    || (t in l.writers && l' == l.DropWrite(t))
    || (t in l.readers && l' == l.DropRead(t))
  }
}
