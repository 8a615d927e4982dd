/** The observable actions of the runtime: the named script callbacks it asks
    for, the socket calls it makes and what it does to the window. A run of the
    frame loop is described by the sequence of these it performs. */
module Trace {

  /** The script callbacks the runtime invokes by name. */
  datatype Callback = OnFocus | OnBlur | OnEnter | OnLeave | OnUpdate | OnDraw | OnExit

  datatype Action =
    | UpdateInput               // updateInput(), the first step of every event drain
    | Call(name: Callback)      // callFunction / callSimpleEvent
    | Handle(socket: nat)       // sockets[socket]->handle()
    | CloseSocket(socket: nat)  // sockets[socket]->close()
    | Display                   // gameWindow.Display()
    | CloseWindow               // gameWindow.Close()

  /** The step of the frame loop an action belongs to, in the order the loop
      takes them: one tick is phases 0 to 5, shutdown is phases 6 to 8. */
  function Phase(a: Action): nat
  {
    match a
    case UpdateInput => 0
    case Call(c) =>
      (match c
       case OnFocus => 1
       case OnBlur => 1
       case OnEnter => 1
       case OnLeave => 1
       case OnUpdate => 3
       case OnDraw => 4
       case OnExit => 7)
    case Handle(_) => 2
    case Display => 5
    case CloseSocket(_) => 6
    case CloseWindow => 8
  }

  /** No action of a later phase comes before an action of an earlier one. */
  predicate InPhaseOrder(tr: seq<Action>)
  {
    forall i, j :: 0 <= i < j < |tr| ==> Phase(tr[i]) <= Phase(tr[j])
  }
}
