/**
 * The bookkeeping side of the TCP reactor: the event queue handed to the
 * poll handlers, the per-connection and per-listener entries with their
 * default flags, and the inline operations of the two entry tables.
 *
 * Callbacks are opaque event ids; running one is recorded by appending its
 * id to the queue's trace.  The pointers the entries hold are opaque handles
 * (connections) or Server objects (listeners).
 */
module TcpSocket {
  import opened Wrappers
  import opened Bytes
  import Net

  /** The SOCKET value of an entry with no OS socket behind it. */
  const InvalidSocket: int := -1

  /** The arbitrary table limit both managers declare. */
  const MaxSockets: nat := 100

  /** A callback bound to its object and arguments. */
  datatype EventId = EventId(n: nat)

  /** A byte buffer: the capacity it was created with and the bytes it holds. */
  datatype Buffer = Buffer(capacity: nat, bytes: seq<u8>)

  /** Buffer(64 * 1024): room for 64 KiB, nothing in it. */
  const EmptyIoBuffer: Buffer := Buffer(64 * 1024, [])

  // ------------------------------------------------------------- EvQueue

  class EvQueue {
    /** Callbacks waiting for emit, in the order they were queued. */
    var evQueue: seq<EventId>
    /** Callbacks run so far, in the order they ran. */
    var trace: seq<EventId>

    /** Nothing is ever queued: add runs its callback at once. */
    ghost predicate Valid()
      reads this
    {
      evQueue == []
    }

    constructor ()
      ensures Valid() && trace == []
    {
      evQueue := [];
      trace := [];
    }

    /** add: the callback runs immediately and the queue does not grow. */
    method Add(ev: EventId)
      requires Valid()
      modifies this`trace
      ensures Valid()
      ensures trace == old(trace) + [ev]
    {
      trace := trace + [ev];
    }

    /** emit: runs every queued callback in order, then empties the queue. */
    method Emit()
      modifies this
      ensures Valid()
      ensures trace == old(trace) + old(evQueue)
    {
      for i := 0 to |evQueue|
        invariant evQueue == old(evQueue)
        invariant trace == old(trace) + evQueue[..i]
      {
        trace := trace + [evQueue[i]];
      }
      evQueue := [];
    }
  }

  /** A callback added and then an emit: it has run exactly once, when it was added. */
  method AddThenEmit(q: EvQueue, ev: EventId)
    requires q.Valid()
    modifies q
    ensures q.Valid()
    ensures q.trace == old(q.trace) + [ev]
  {
    q.Add(ev);
    q.Emit();
  }

  // ------------------------------------------------------ connection entries

  /** One slot of the connection table. */
  datatype NetSocketEntry = NetSocketEntry(
    index: nat,
    ptr: Option<Net.SocketRef>,
    connecting: bool,
    remoteEnded: bool,
    localEnded: bool,
    pendingLocalEnd: bool,
    paused: bool,
    allowHalfOpen: bool,
    refed: bool,
    writeBuffer: Buffer,
    recvBuffer: Buffer,
    osSocket: int)
  {
    /** isValid: the slot belongs to a socket object. */
    predicate IsValid(): (r: bool)
      ensures r <==> ptr.Some?
    {
      ptr.Some?
    }
  }

  /** NetSocketEntry(index) (ptr None) and NetSocketEntry(index, ptr). */
  function NewSocketEntry(index: nat, ptr: Option<Net.SocketRef>): (e: NetSocketEntry)
    ensures e.index == index && e.ptr == ptr
    ensures e.IsValid() <==> ptr.Some?
    ensures e.refed && e.allowHalfOpen
    ensures !e.connecting && !e.remoteEnded && !e.localEnded && !e.pendingLocalEnd && !e.paused
    ensures e.writeBuffer.bytes == [] && e.recvBuffer.bytes == []
    ensures e.osSocket == InvalidSocket
  {
    NetSocketEntry(index, ptr, false, false, false, false, false, true, true,
                   EmptyIoBuffer, EmptyIoBuffer, InvalidSocket)
  }

  class NetSocketManager {
    var ioSockets: seq<NetSocketEntry>
    var pendingCloseEvents: seq<(nat, bool)>
    var bufferStore: seq<Buffer>
    var errorStore: seq<Net.Error>
    var family: string

    /** Slot 0 is always present and never valid. */
    ghost predicate Valid()
      reads this
    {
      |ioSockets| >= 1 && !ioSockets[0].IsValid()
    }

    /** A table holding only the reserved slot 0. */
    constructor ()
      ensures Valid()
      ensures ioSockets == [NewSocketEntry(0, None)]
      ensures pendingCloseEvents == [] && bufferStore == [] && errorStore == [] && family == "IPv4"
    {
      ioSockets := [NewSocketEntry(0, None)];
      pendingCloseEvents := [];
      bufferStore := [];
      errorStore := [];
      family := "IPv4";
    }

    /** pause: sets `paused` on entry id and nothing else. */
    method Pause(id: nat)
      requires Valid() && id < |ioSockets|
      modifies this`ioSockets
      ensures Valid()
      ensures ioSockets == old(ioSockets)[id := old(ioSockets[id]).(paused := true)]
    {
      ioSockets := ioSockets[id := ioSockets[id].(paused := true)];
    }

    /** resume: clears `paused` on entry id and nothing else. */
    method Resume(id: nat)
      requires Valid() && id < |ioSockets|
      modifies this`ioSockets
      ensures Valid()
      ensures ioSockets == old(ioSockets)[id := old(ioSockets[id]).(paused := false)]
    {
      ioSockets := ioSockets[id := ioSockets[id].(paused := false)];
    }

    /** ref: sets `refed` on entry id and nothing else. */
    method Ref(id: nat)
      requires Valid() && id < |ioSockets|
      modifies this`ioSockets
      ensures Valid()
      ensures ioSockets == old(ioSockets)[id := old(ioSockets[id]).(refed := true)]
    {
      ioSockets := ioSockets[id := ioSockets[id].(refed := true)];
    }

    /** unref: clears `refed` on entry id and nothing else. */
    method Unref(id: nat)
      requires Valid() && id < |ioSockets|
      modifies this`ioSockets
      ensures Valid()
      ensures ioSockets == old(ioSockets)[id := old(ioSockets[id]).(refed := false)]
    {
      ioSockets := ioSockets[id := ioSockets[id].(refed := false)];
    }

    /** bufferSize: the number of bytes waiting in entry id's write buffer. */
    method BufferSize(id: nat) returns (n: nat)
      requires id < |ioSockets|
      ensures n == |ioSockets[id].writeBuffer.bytes|
    {
      n := |ioSockets[id].writeBuffer.bytes|;
    }

    /** storeBuffer: keeps the buffer alive in the store and hands back the stored element. */
    method StoreBuffer(buff: Buffer) returns (stored: Buffer)
      modifies this`bufferStore
      ensures bufferStore == old(bufferStore) + [buff]
      ensures stored == bufferStore[|bufferStore| - 1] == buff
    {
      bufferStore := bufferStore + [buff];
      stored := bufferStore[|bufferStore| - 1];
    }

    /** storeError: keeps the error alive in the store and hands back the stored element. */
    method StoreError(err: Net.Error) returns (stored: Net.Error)
      modifies this`errorStore
      ensures errorStore == old(errorStore) + [err]
      ensures stored == errorStore[|errorStore| - 1] == err
    {
      errorStore := errorStore + [err];
      stored := errorStore[|errorStore| - 1];
    }

    /** clearStores: drops everything kept in both stores. */
    method ClearStores()
      modifies this`bufferStore, this`errorStore
      ensures bufferStore == [] && errorStore == []
    {
      bufferStore := [];
      errorStore := [];
    }
  }

  /** Pausing and then resuming an entry of a table whose entries were not paused gives the table back. */
  method PauseResumeRestores(m: NetSocketManager, id: nat)
    requires m.Valid() && id < |m.ioSockets| && !m.ioSockets[id].paused
    modifies m
    ensures m.Valid() && m.ioSockets == old(m.ioSockets)
  {
    m.Pause(id);
    m.Resume(id);
  }

  // -------------------------------------------------------- listener entries

  /** One slot of the listener table. */
  datatype NetServerEntry = NetServerEntry(
    index: nat,
    ptr: Option<Net.Server>,
    refed: bool,
    osSocket: int,
    fdEvents: int)
  {
    /** isValid: the slot belongs to a Server object. */
    predicate IsValid(): (r: bool)
      ensures r <==> ptr.Some?
    {
      ptr.Some?
    }
  }

  /** NetServerEntry(index) (ptr None) and NetServerEntry(index, ptr). */
  function NewServerEntry(index: nat, ptr: Option<Net.Server>): (e: NetServerEntry)
    ensures e.index == index && e.ptr == ptr
    ensures e.IsValid() <==> ptr.Some?
    ensures e.refed && e.osSocket == InvalidSocket && e.fdEvents == 0
  {
    NetServerEntry(index, ptr, true, InvalidSocket, 0)
  }

  class NetServerManager {
    var ioSockets: seq<NetServerEntry>
    var pendingCloseEvents: seq<(nat, bool)>
    var errorStore: seq<Net.Error>
    var family: string

    /** Slot 0 is always present and never valid. */
    ghost predicate Valid()
      reads this
    {
      |ioSockets| >= 1 && !ioSockets[0].IsValid()
    }

    /** A table holding only the reserved slot 0. */
    constructor ()
      ensures Valid()
      ensures ioSockets == [NewServerEntry(0, None)]
      ensures pendingCloseEvents == [] && errorStore == [] && family == "IPv4"
    {
      ioSockets := [NewServerEntry(0, None)];
      pendingCloseEvents := [];
      errorStore := [];
      family := "IPv4";
    }

    /** ref: sets `refed` on entry id and nothing else. */
    method Ref(id: nat)
      requires Valid() && id < |ioSockets|
      modifies this`ioSockets
      ensures Valid()
      ensures ioSockets == old(ioSockets)[id := old(ioSockets[id]).(refed := true)]
    {
      ioSockets := ioSockets[id := ioSockets[id].(refed := true)];
    }

    /** unref: clears `refed` on entry id and nothing else. */
    method Unref(id: nat)
      requires Valid() && id < |ioSockets|
      modifies this`ioSockets
      ensures Valid()
      ensures ioSockets == old(ioSockets)[id := old(ioSockets[id]).(refed := false)]
    {
      ioSockets := ioSockets[id := ioSockets[id].(refed := false)];
    }

    /** storeError: keeps the error alive in the store and hands back the stored element. */
    method StoreError(err: Net.Error) returns (stored: Net.Error)
      modifies this`errorStore
      ensures errorStore == old(errorStore) + [err]
      ensures stored == errorStore[|errorStore| - 1] == err
    {
      errorStore := errorStore + [err];
      stored := errorStore[|errorStore| - 1];
    }

    /** clearStores: drops every kept error. */
    method ClearStores()
      modifies this`errorStore
      ensures errorStore == []
    {
      errorStore := [];
    }
  }
}
