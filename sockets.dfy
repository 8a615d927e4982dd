/** The socket poll of one tick (GameSockets) and the socket closing at
    shutdown. The registry is the sequence of the registered sockets' status
    codes, in registration order; a socket is named by its index. */
module Sockets {
  import opened Trace

  /** Status code of a socket that is closing (0 is closed, 1 and 2 connecting
      and connected). */
  const Closing: int := 3

  /** The test GameSockets applies before it calls handle(). */
  predicate Ready(status: int)
  {
    status > 0 && status != Closing
  }

  /** The indices of the sockets one poll services, in the order it services
      them. */
  function Serviced(registry: seq<int>): seq<nat>
    decreases |registry|
  {
    if registry == [] then []
    else
      var last := |registry| - 1;
      Serviced(registry[..last]) + if Ready(registry[last]) then [last] else []
  }

  /** A poll services exactly the ready sockets. */
  lemma {:induction false} ServicedExactlyReady(registry: seq<int>)
    ensures forall j: nat :: j in Serviced(registry) <==> j < |registry| && Ready(registry[j])
    decreases |registry|
  {
    if registry != [] {
      var prefix := registry[..|registry| - 1];
      ServicedExactlyReady(prefix);
      assert forall j :: 0 <= j < |prefix| ==> prefix[j] == registry[j];
    }
  }

  /** A poll services the sockets in registry order, each at most once. */
  lemma {:induction false} ServicedInOrder(registry: seq<int>)
    ensures forall a, b :: 0 <= a < b < |Serviced(registry)| ==>
      Serviced(registry)[a] < Serviced(registry)[b]
    decreases |registry|
  {
    if registry != [] {
      var prefix := registry[..|registry| - 1];
      var earlier := Serviced(prefix);
      var r := Serviced(registry);
      ServicedInOrder(prefix);
      ServicedExactlyReady(prefix);
      forall a, b | 0 <= a < b < |r| ensures r[a] < r[b] {
        assert r[a] == earlier[a] && earlier[a] in earlier;
        if b < |earlier| {
          assert r[b] == earlier[b];
        } else {
          assert r[b] == |prefix|;
        }
      }
    }
  }

  /** The handle() calls on the sockets ids, in that order. */
  function Handles(ids: seq<nat>): seq<Action>
    decreases |ids|
  {
    if ids == [] then [] else Handles(ids[..|ids| - 1]) + [Handle(ids[|ids| - 1])]
  }

  /** One handle() call per id, on that id. */
  lemma {:induction false} HandlesEach(ids: seq<nat>)
    ensures |Handles(ids)| == |ids|
    ensures forall i :: 0 <= i < |ids| ==> Handles(ids)[i] == Handle(ids[i])
    decreases |ids|
  {
    if ids != [] {
      var prefix := ids[..|ids| - 1];
      HandlesEach(prefix);
      assert forall i :: 0 <= i < |prefix| ==> prefix[i] == ids[i];
    }
  }

  /** The close() calls on the first n sockets, in registry order. */
  function Closes(n: nat): seq<Action>
  {
    if n == 0 then [] else Closes(n - 1) + [CloseSocket(n - 1)]
  }

  /** One close() call per socket, the i-th on socket i. */
  lemma {:induction false} ClosesEach(n: nat)
    ensures |Closes(n)| == n
    ensures forall i :: 0 <= i < n ==> Closes(n)[i] == CloseSocket(i)
  {
    if n > 0 {
      ClosesEach(n - 1);
    }
  }
}
