/**
 * The id bookkeeping of the cluster: every thread owns a Worker whose id
 * tells the master thread (id 0) from the worker threads (any other id).
 * An id starts out as the invalid value (size_t)(-1), can be set once, and
 * moves with the Worker object, leaving the moved-from object invalid.
 */
module NodeCluster {

  /** size_t. */
  newtype Size = x: int | 0 <= x < 0x1_0000_0000_0000_0000

  /** Worker::invalidID, (size_t)(-1). */
  const InvalidID: Size := 0xFFFF_FFFF_FFFF_FFFF

  /** The control connection a Worker owns (an owning pointer to a socket, null when absent). */
  datatype ControlSocket = NoSocket | ControlSocket(handle: nat)

  class Worker {
    var id_: Size
    var ctrlServer: ControlSocket

    /** A default Worker: no id yet and no control connection. */
    constructor ()
      ensures id_ == InvalidID && ctrlServer == NoSocket && CanSetID()
    {
      id_ := InvalidID;
      ctrlServer := NoSocket;
    }

    /** The id has not been set yet. */
    predicate CanSetID()
      reads this
    {
      id_ == InvalidID
    }

    /** setID: only on a Worker whose id is still invalid. */
    method SetID(id: Size)
      requires CanSetID()
      modifies this`id_
      ensures Id() == id
      ensures id != InvalidID ==> !CanSetID()
    {
      id_ := id;
    }

    /** The move constructor: takes over id and control connection; the source is left without either. */
    constructor Move(other: Worker)
      modifies other
      ensures id_ == old(other.id_) && ctrlServer == old(other.ctrlServer)
      ensures other.id_ == InvalidID && other.ctrlServer == NoSocket && other.CanSetID()
    {
      id_ := other.id_;
      ctrlServer := other.ctrlServer;
      new;
      other.id_ := InvalidID;
      other.ctrlServer := NoSocket;
    }

    /** id(): the invalid value exactly while the id can still be set. */
    function Id(): (r: Size)
      reads this
      ensures r == id_
      ensures r == InvalidID <==> CanSetID()
    {
      id_
    }
  }

  class Cluster {
    var thisThreadWorker: Worker
    var workers_: seq<Worker>
    var coreCtr: nat

    constructor ()
      ensures fresh(thisThreadWorker) && thisThreadWorker.Id() == InvalidID
      ensures workers_ == [] && coreCtr == 0
      ensures IsWorker() && !IsMaster()
    {
      thisThreadWorker := new Worker();
      workers_ := [];
      coreCtr := 0;
    }

    /** isMaster: this thread's worker has id 0. */
    predicate IsMaster(): (r: bool)
      reads this, thisThreadWorker
      ensures r <==> thisThreadWorker.id_ == 0
      ensures r ==> !thisThreadWorker.CanSetID()
    {
      thisThreadWorker.Id() == 0
    }

    /** isWorker: this thread's worker has any other id (the invalid one included). */
    predicate IsWorker(): (r: bool)
      reads this, thisThreadWorker
      ensures r <==> thisThreadWorker.id_ != 0
      ensures thisThreadWorker.CanSetID() ==> r
    {
      thisThreadWorker.Id() != 0
    }

    /** preinitMaster: this thread becomes the master. */
    method PreinitMaster()
      modifies thisThreadWorker`id_
      ensures thisThreadWorker.Id() == 0
      ensures IsMaster() && !IsWorker()
    {
      thisThreadWorker.id_ := 0;
    }

    /** preinitSlave: this thread takes the given id, whatever the id was before. */
    method PreinitSlave(threadID: Size)
      modifies thisThreadWorker`id_
      ensures thisThreadWorker.Id() == threadID
      ensures IsMaster() <==> threadID == 0
      ensures IsWorker() <==> threadID != 0
    {
      thisThreadWorker.id_ := threadID;
    }
  }

  /** Exactly one of isMaster and isWorker holds, whatever the id. */
  lemma MasterOrWorker(c: Cluster)
    ensures c.IsMaster() != c.IsWorker()
    ensures c.IsMaster() <==> c.thisThreadWorker.Id() == 0
  {
  }
}
