/**
The registration round trip: from the server's NULL-terminated table of service names to the
record in the broker's repository.
*/
module Registrations {
  import opened MsgPack
  import opened Common
  import opened Server
  import opened Broker
  import opened Messages

  ghost predicate GoodTable(from: Endpoint, names: seq<bytes>)
  {
    GoodEndpoint(from) && |names| < 0x1000_0000 && forall n | n in names :: IsC(n)
  }

  /** A table is sent as the registration of its names, last one first. */
  lemma RegistrationWire(from: Endpoint, names: seq<bytes>)
    requires GoodTable(from, names)
    ensures GoodMsg(Registration(from, Reversed(names)))
    ensures RegistrationBytes(from, names) == Bytes(Registration(from, Reversed(names)))
  {
    hide Reversed, RegistrationBytes;
    ReversedTwice(names);
  }

  /** An empty name is counted but not packed: the broker never sees the array, and keeps unwritten services. */
  lemma EmptyNameLosesServices(from: Endpoint, names: seq<bytes>)
    requires GoodTable(from, names) && [] in names
    ensures UnpackRegistration(RegistrationBytes(from, names)) ==
      if |RegistrationBytes(from, names)| < INT_LIMIT then Ok(UnwrittenRecord(from, |names|)) else Abort
  {
    hide UnpackRegistration, RegistrationBytes, Bytes;
    RegistrationWire(from, names);
    UnpackRegistrationMsg(Registration(from, Reversed(names)));
    ReversedTwice(names);
  }

  /** The broker fails at the registration of a table if and only if it has an empty name or does not fit. */
  lemma RegistrationStopsBroker(st: BrokerState, from: Endpoint, names: seq<bytes>)
    requires GoodTable(from, names)
    ensures BrokerStep(st, RegistrationBytes(from, names)).1 == Abort <==>
      [] in names || |RegistrationBytes(from, names)| >= INT_LIMIT
  {
    hide BrokerStep, RegistrationBytes, Bytes;
    RegistrationWire(from, names);
    RegistrationAtBroker(st, Registration(from, Reversed(names)));
    ReversedTwice(names);
  }

  /**
  The registration round trip: the broker's record has the server's address and port, and lists
  exactly the names of the table, in reverse order - if and only if no name in the table is empty
  and the length of the packet fits an int.
  */
  lemma RegistrationRoundTrip(from: Endpoint, names: seq<bytes>)
    requires GoodTable(from, names)
    ensures UnpackRegistration(RegistrationBytes(from, names)) == Ok(WrittenRecord(from, Reversed(names))) <==>
      [] !in names && |RegistrationBytes(from, names)| < INT_LIMIT
    ensures |RegistrationBytes(from, names)| < INT_LIMIT ==>
      var reg := UnpackRegistration(RegistrationBytes(from, names));
      reg.Ok? && reg.value.address == At(from.address) && reg.value.port == At(from.port) &&
        |reg.value.services| == |names|
  {
    hide UnpackRegistration, RegistrationBytes, Bytes;
    if [] in names {
      EmptyNameLosesServices(from, names);
      assert UninitServices(|names|)[0] == Uninit;
      assert ServiceAts(Reversed(names))[0] != Uninit;
    } else {
      RegistrationWire(from, names);
      UnpackRegistrationMsg(Registration(from, Reversed(names)));
      ReversedTwice(names);
    }
  }

  // ---------- What such a record does to the broker ----------

  /** A search comes to record j and reads a service there that was never written. */
  ghost predicate TripsAt(svc: seq<ServiceReg>, op: bytes, j: int)
  {
    && 0 <= j < |svc| && ListsOp(svc[j].services, op) == Abort
    && forall i | 0 <= i < j :: ListsOp(svc[i].services, op) == Ok(false)
  }

  /** The search aborts exactly when it comes to such a record. */
  lemma {:induction false} RouteTrips(svc: seq<ServiceReg>, op: bytes)
    ensures Route(svc, op) == Abort <==> exists j :: TripsAt(svc, op, j)
  {
    hide ListsOp;
    if svc != [] {
      var rest := svc[1..];
      RouteTrips(rest, op);
      if j :| TripsAt(rest, op, j) && ListsOp(svc[0].services, op) == Ok(false) {
        assert TripsAt(svc, op, j + 1);
      }
      if j :| TripsAt(svc, op, j) {
        if j == 0 {
          assert ListsOp(svc[0].services, op) == Abort;
        } else {
          assert forall i | 0 <= i < j - 1 :: rest[i] == svc[i + 1];
          assert TripsAt(rest, op, j - 1);
        }
      }
      if ListsOp(svc[0].services, op) == Abort {
        assert TripsAt(svc, op, 0);
      }
    }
  }

  /** Records are written completely or, after an empty name, not at all. */
  ghost predicate Whole(reg: ServiceReg)
  {
    Complete(reg) || exists from, n :: n > 0 && reg == UnwrittenRecord(from, n)
  }

  lemma ListsOpTrips(reg: ServiceReg, op: bytes)
    requires Whole(reg)
    ensures ListsOp(reg.services, op) == if Complete(reg) then Ok(Lists(reg, op)) else Abort
  {
    if Complete(reg) {
      ListsOpMeaning(reg.services, op);
    } else {
      var from, n :| n > 0 && reg == UnwrittenRecord(from, n);
      assert reg.services[0] == Uninit;
    }
  }

  /** Record j is unwritten, and no record before it lists the operation. */
  ghost predicate Unsearchable(svc: seq<ServiceReg>, op: bytes, j: int)
  {
    0 <= j < |svc| && !Complete(svc[j]) && forall i | 0 <= i < j :: Complete(svc[i]) && !Lists(svc[i], op)
  }

  /**
  Once a table with an empty name has been registered, the broker runs into undefined behaviour at a
  request if and only if no record before that one lists its operation.
  */
  lemma EmptyNameStopsBroker(st: BrokerState, m: Msg)
    requires GoodMsg(m) && m.Request? && forall reg | reg in st.svc :: Whole(reg)
    ensures BrokerStep(st, Bytes(m)).1 == Abort <==> exists j :: Unsearchable(st.svc, m.op, j)
  {
    RequestAtBroker(st, m);
    hide Bytes, BrokerStep, ListsOp, Route, Complete, Lists, Whole;
    RouteTrips(st.svc, m.op);
    forall j | 0 <= j < |st.svc|
      ensures ListsOp(st.svc[j].services, m.op) == if Complete(st.svc[j]) then Ok(Lists(st.svc[j], m.op)) else Abort
    {
      ListsOpTrips(st.svc[j], m.op);
    }
    SearchTrips(st.svc, m.op);
    RoutedComplete(st.svc, m.op);
  }

  lemma SearchTrips(svc: seq<ServiceReg>, op: bytes)
    requires forall j | 0 <= j < |svc| ::
      ListsOp(svc[j].services, op) == if Complete(svc[j]) then Ok(Lists(svc[j], op)) else Abort
    ensures (exists j :: TripsAt(svc, op, j)) <==> exists j :: Unsearchable(svc, op, j)
  {
    hide ListsOp, Complete, Lists;
    forall j
      ensures TripsAt(svc, op, j) <==> Unsearchable(svc, op, j)
    {
    }
  }

  /** A record that is found has an address and a port. */
  lemma {:induction false} RoutedComplete(svc: seq<ServiceReg>, op: bytes)
    requires forall reg | reg in svc :: Whole(reg)
    ensures Route(svc, op).Ok? && Route(svc, op).value.Some? ==> Destination(Route(svc, op).value.value).Ok?
  {
    hide ListsOp;
    if svc != [] {
      assert svc[0] in svc && Whole(svc[0]);
      assert forall reg | reg in svc[1..] :: reg in svc;
      RoutedComplete(svc[1..], op);
    }
  }
}
