/**
 * The listening-socket object of the net module: its life cycle
 * (uninitialized, listening, closed), the id and address it is given when
 * listening starts, and the four event emitters (close, connection,
 * listening, error) on which user callbacks are registered.
 *
 * The emitters themselves come from event.h, which is not part of this
 * model: a callback is an opaque id tagged with the event its type belongs
 * to, an emitter is the list of registrations made on it, and firing an
 * emitter is recorded in a trace together with the virtual hook that follows.
 */
module Net {

  /** The four events a Server emits. */
  datatype EventKind = CloseEvent | ConnectionEvent | ListeningEvent | ErrorEvent

  /** An error object handed to error listeners. */
  datatype Error = Error(code: int)

  /** A connected socket handed to connection listeners (net::Socket*, owned elsewhere). */
  datatype SocketRef = SocketRef(handle: nat)

  /** The local address; Unset is a default-constructed Address. */
  datatype Address = Unset | Address(token: nat)

  /** A user callback; its type decides which emitter it belongs to. */
  datatype Callback = Callback(kind: EventKind, id: nat)

  /** One registration on an emitter: `on` keeps it, `once` drops it after one firing. */
  datatype Registration = Registration(callback: nat, once: bool)

  /** The argument an event carries. */
  datatype EventArg = HadError(hadError: bool) | NewSocket(socket: SocketRef) | NoArg | Failure(err: Error)

  datatype State = Uninitialized | Listening | Closed

  /** What a listener can observe of the server while it runs: listening(), the id and address(). */
  datatype View = View(state: State, id: nat, address: Address)

  /** What happens, in order: an emitter fires its callbacks, a virtual onX hook runs, each seeing the server as `seen`. */
  datatype Occurrence =
    | Emitted(kind: EventKind, arg: EventArg, seen: View)
    | Hook(kind: EventKind, arg: EventArg, seen: View)

  /** Every emitX fires the emitter first and the hook after it, with the same argument and the same server. */
  function Fired(kind: EventKind, arg: EventArg, seen: View): (r: seq<Occurrence>)
    ensures |r| == 2 && r[0].Emitted? && r[1].Hook?
    ensures forall o :: o in r ==> o.kind == kind && o.arg == arg && o.seen == seen
  {
    [Emitted(kind, arg, seen), Hook(kind, arg, seen)]
  }

  class Server {
    var eClose: seq<Registration>
    var eConnection: seq<Registration>
    var eListening: seq<Registration>
    var eError: seq<Registration>
    var localAddress: Address
    var id: nat
    var state: State
    /** Callbacks and hooks run so far, in order. */
    var trace: seq<Occurrence>

    /** Only a listening server holds a non-zero id. */
    ghost predicate Valid()
      reads this
    {
      state != Listening ==> id == 0
    }

    /** The registrations on the emitter of `kind`. */
    function Registrations(kind: EventKind): seq<Registration>
      reads this
    {
      match kind
      case CloseEvent => eClose
      case ConnectionEvent => eConnection
      case ListeningEvent => eListening
      case ErrorEvent => eError
    }

    constructor ()
      ensures Valid() && !IsListening()
      ensures state == Uninitialized && id == 0 && localAddress == Unset && trace == []
      ensures forall k :: Registrations(k) == []
    {
      eClose, eConnection, eListening, eError := [], [], [], [];
      localAddress := Unset;
      id := 0;
      state := Uninitialized;
      trace := [];
    }

    /** listening(): in the listening state, which a server with a non-zero id is in. */
    predicate IsListening(): (r: bool)
      reads this
      ensures r <==> state == Listening
      ensures Valid() && id != 0 ==> r
    {
      state == Listening
    }

    /** address(): the address stored by the last emitListening, Unset before it. */
    function LocalAddress(): (r: Address)
      reads this
      ensures r == localAddress
    {
      localAddress
    }

    /** What listeners observe of this server now. */
    function Now(): (r: View)
      reads this
      ensures r.state == state && r.id == id && r.address == LocalAddress()
    {
      View(state, id, localAddress)
    }

    /** emitClose: closed and id cleared before the close listeners run. */
    method EmitClose(hadError: bool)
      requires Valid()
      modifies this`state, this`id, this`trace
      ensures Valid() && !IsListening()
      ensures state == Closed && id == 0 && localAddress == old(localAddress)
      ensures trace == old(trace) + Fired(CloseEvent, HadError(hadError), View(Closed, 0, old(localAddress)))
    {
      state := Closed;
      id := 0;
      trace := trace + Fired(CloseEvent, HadError(hadError), Now());
    }

    /** emitConnection: fires the connection listeners; state, id and address stay. */
    method EmitConnection(socket: SocketRef)
      requires Valid()
      modifies this`trace
      ensures Valid()
      ensures trace == old(trace) + Fired(ConnectionEvent, NewSocket(socket), old(Now()))
    {
      trace := trace + Fired(ConnectionEvent, NewSocket(socket), Now());
    }

    /** emitListening: id, address and state are set before the listening listeners run. */
    method EmitListening(newId: nat, addr: Address)
      modifies this`id, this`localAddress, this`state, this`trace
      ensures Valid() && IsListening() && LocalAddress() == addr
      ensures id == newId
      ensures trace == old(trace) + Fired(ListeningEvent, NoArg, View(Listening, newId, addr))
    {
      id := newId;
      localAddress := addr;
      state := Listening;
      trace := trace + Fired(ListeningEvent, NoArg, Now());
    }

    /** emitError: fires the error listeners; state, id and address stay. */
    method EmitError(err: Error)
      requires Valid()
      modifies this`trace
      ensures Valid()
      ensures trace == old(trace) + Fired(ErrorEvent, Failure(err), old(Now()))
    {
      trace := trace + Fired(ErrorEvent, Failure(err), Now());
    }

    /** Appends a registration to the emitter of `kind` and to no other. */
    method Register(kind: EventKind, reg: Registration)
      modifies this`eClose, this`eConnection, this`eListening, this`eError
      ensures Registrations(kind) == old(Registrations(kind)) + [reg]
      ensures forall k :: k != kind ==> Registrations(k) == old(Registrations(k))
    {
      match kind
      case CloseEvent => eClose := eClose + [reg];
      case ConnectionEvent => eConnection := eConnection + [reg];
      case ListeningEvent => eListening := eListening + [reg];
      case ErrorEvent => eError := eError + [reg];
    }

    /** on(name, cb) and on(EV, cb): a lasting registration on the emitter of the callback's event. */
    method On(cb: Callback)
      modifies this`eClose, this`eConnection, this`eListening, this`eError
      ensures Registrations(cb.kind) == old(Registrations(cb.kind)) + [Registration(cb.id, false)]
      ensures forall k :: k != cb.kind ==> Registrations(k) == old(Registrations(k))
    {
      Register(cb.kind, Registration(cb.id, false));
    }

    /** once(name, cb) and once(EV, cb): a one-shot registration on the emitter of the callback's event. */
    method Once(cb: Callback)
      modifies this`eClose, this`eConnection, this`eListening, this`eError
      ensures Registrations(cb.kind) == old(Registrations(cb.kind)) + [Registration(cb.id, true)]
      ensures forall k :: k != cb.kind ==> Registrations(k) == old(Registrations(k))
    {
      Register(cb.kind, Registration(cb.id, true));
    }

    /**
     * close(cb): cb is registered once on the close emitter, then close()
     * runs; close() itself is declared without a body and is not modelled.
     */
    method CloseWith(cb: nat)
      modifies this`eClose, this`eConnection, this`eListening, this`eError
      ensures Registrations(CloseEvent) == old(Registrations(CloseEvent)) + [Registration(cb, true)]
      ensures forall k :: k != CloseEvent ==> Registrations(k) == old(Registrations(k))
    {
      Once(Callback(CloseEvent, cb));
    }

    /**
     * listen(port, ip, backlog, cb): cb is registered once on the listening
     * emitter, then listen(port, ip, backlog) runs; that overload is declared
     * without a body and is not modelled, so port, ip and backlog are not
     * parameters here.
     */
    method ListenWith(cb: nat)
      modifies this`eClose, this`eConnection, this`eListening, this`eError
      ensures Registrations(ListeningEvent) == old(Registrations(ListeningEvent)) + [Registration(cb, true)]
      ensures forall k :: k != ListeningEvent ==> Registrations(k) == old(Registrations(k))
    {
      Once(Callback(ListeningEvent, cb));
    }
  }
}
