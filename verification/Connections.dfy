/** The connection table of httpd.c and the admission rule of raop.c: twelve slots, and at most one
    client at a time. */
module Connections {

  const MAX_CONNECTIONS := 12

  datatype Kind = Unknown | Raop

  /** A slot; the user data is the address of a `raop_conn_t`, 0 being the null pointer. */
  datatype Slot = Slot(connected: bool, userData: nat, kind: Kind)

  const FREE := Slot(false, 0, Unknown)

  function CountConnected(s: seq<Slot>): (n: nat)
    ensures n <= |s|
  {
    if |s| == 0 then 0 else CountConnected(s[..|s| - 1]) + (if s[|s| - 1].connected then 1 else 0)
  }

  lemma {:induction false} CountUpdate(s: seq<Slot>, i: nat, slot: Slot)
    requires i < |s|
    ensures CountConnected(s[i := slot])
         == CountConnected(s) + (if slot.connected then 1 else 0) - (if s[i].connected then 1 else 0)
    decreases |s|
  {
    var last := |s| - 1;
    if i < last {
      CountUpdate(s[..last], i, slot);
      assert s[i := slot][..last] == s[..last][i := slot];
    } else {
      assert s[i := slot][..last] == s[..last];
    }
  }

  lemma {:induction false} CountFull(s: seq<Slot>)
    ensures CountConnected(s) == |s| <==> forall i :: 0 <= i < |s| ==> s[i].connected
    decreases |s|
  {
    if |s| > 0 {
      CountFull(s[..|s| - 1]);
    }
  }

  lemma {:induction false} CountFree(s: seq<Slot>)
    requires forall i :: 0 <= i < |s| ==> !s[i].connected
    ensures CountConnected(s) == 0
    decreases |s|
  {
    if |s| > 0 {
      CountFree(s[..|s| - 1]);
    }
  }

  /** How many connections are of one type. */
  function CountKind(s: seq<Slot>, kind: Kind): nat {
    if |s| == 0 then 0
    else CountKind(s[..|s| - 1], kind) + (if s[|s| - 1].connected && s[|s| - 1].kind == kind then 1 else 0)
  }

  lemma {:induction false} CountKindPositive(s: seq<Slot>, kind: Kind)
    ensures CountKind(s, kind) > 0 <==> exists i :: 0 <= i < |s| && s[i].connected && s[i].kind == kind
    decreases |s|
  {
    if |s| > 0 {
      var before := s[..|s| - 1];
      CountKindPositive(before, kind);
      assert forall i :: 0 <= i < |before| ==> before[i] == s[i];
    }
  }

  lemma {:induction false} CountKindOne(s: seq<Slot>, kind: Kind)
    requires forall i, j :: 0 <= i < j < |s| && s[i].connected && s[i].kind == kind ==> !(s[j].connected && s[j].kind == kind)
    ensures CountKind(s, kind) <= 1
    decreases |s|
  {
    if |s| > 0 {
      CountKindOne(s[..|s| - 1], kind);
      CountKindPositive(s[..|s| - 1], kind);
    }
  }

  predicate IsClient(slot: Slot) {
    slot.connected && slot.kind == Raop
  }

  /** What the server does to a readable connection, by what was read from it. */
  datatype Input = Closed | Malformed | Partial | Request(disconnect: bool)

  class Httpd {
    const connections: array<Slot>
    var openConnections: int
    const nohold: bool
    var conns: map<nat, Kind>  // the live connection objects and their own `connection_type`

    ghost predicate Valid()
      reads this, connections
    {
      && connections.Length == MAX_CONNECTIONS
      && openConnections == CountConnected(connections[..])
      && (forall i :: 0 <= i < MAX_CONNECTIONS && connections[i].connected ==>
            connections[i].userData in conns && connections[i].userData != 0 && conns[connections[i].userData] == connections[i].kind)
      && (forall i :: 0 <= i < MAX_CONNECTIONS && !connections[i].connected ==> connections[i] == FREE)
      && (forall i, j :: 0 <= i < j < MAX_CONNECTIONS && connections[i].connected && connections[j].connected ==>
            connections[i].userData != connections[j].userData)
      && (forall i, j :: 0 <= i < j < MAX_CONNECTIONS ==> !(IsClient(connections[i]) && IsClient(connections[j])))
    }

    constructor (nohold: bool)
      ensures Valid() && this.nohold == nohold && openConnections == 0 && fresh(connections)
    {
      connections := new Slot[MAX_CONNECTIONS](_ => FREE);
      this.nohold, openConnections, conns := nohold, 0, map[];
      new;
      CountFree(connections[..]);
    }

    /** The slot of a connected object, or -1. */
    method SetConnectionType(userData: nat, kind: Kind) returns (slot: int)
      requires connections.Length == MAX_CONNECTIONS
      modifies connections
      ensures -1 <= slot < MAX_CONNECTIONS
      ensures slot >= 0 ==>
        && old(connections[slot]).connected && old(connections[slot]).userData == userData
        && connections[..] == old(connections[..])[slot := old(connections[slot]).(kind := kind)]
        && forall i :: 0 <= i < slot && old(connections[i]).connected ==> old(connections[i]).userData != userData
      ensures slot == -1 ==> connections[..] == old(connections[..])
      ensures slot == -1 ==> forall i :: 0 <= i < MAX_CONNECTIONS && connections[i].connected ==> connections[i].userData != userData
    {
      slot := 0;
      while slot < MAX_CONNECTIONS
        invariant 0 <= slot <= MAX_CONNECTIONS
        invariant connections[..] == old(connections[..])
        invariant forall i :: 0 <= i < slot && connections[i].connected ==> connections[i].userData != userData
      {
        if connections[slot].connected && connections[slot].userData == userData {
          connections[slot] := connections[slot].(kind := kind);
          return;
        }
        slot := slot + 1;
      }
      slot := -1;
    }

    method CountConnectionType(kind: Kind) returns (count: nat)
      requires Valid()
      ensures count > 0 <==> exists i :: 0 <= i < MAX_CONNECTIONS && connections[i].connected && connections[i].kind == kind
      ensures kind == Raop ==> count <= 1
      ensures count == CountKind(connections[..], kind)
    {
      count := 0;
      var i := 0;
      while i < MAX_CONNECTIONS
        invariant 0 <= i <= MAX_CONNECTIONS && count == CountKind(connections[..i], kind)
      {
        assert connections[..i + 1][..i] == connections[..i];
        if connections[i].connected && connections[i].kind == kind {
          count := count + 1;
        }
        i := i + 1;
      }
      assert connections[..i] == connections[..];
      CountKindPositive(connections[..], kind);
      if kind == Raop {
        assert forall j, k :: 0 <= j < k < MAX_CONNECTIONS && IsClient(connections[j]) ==> !IsClient(connections[k]);
        CountKindOne(connections[..], kind);
      }
    }

    method RemoveConnection(i: nat)
      requires Valid() && i < MAX_CONNECTIONS && connections[i].connected
      modifies this`openConnections, this`conns, connections
      ensures Valid() && connections[..] == old(connections[..])[i := FREE]
      ensures conns == old(conns) - {old(connections[i]).userData}
    {
      ghost var was := connections[..];
      CountUpdate(connections[..], i, FREE);
      conns := conns - {connections[i].userData};
      connections[i] := FREE;
      assert connections[..] == was[i := FREE];
      openConnections := openConnections - 1;
    }

    /** Puts a new connection object into the first free slot; -1 if the table is full, or the
        object cannot be made (`newConn` is then 0). */
    method AddConnection(newConn: nat) returns (ret: int)
      requires Valid() && newConn !in conns
      modifies this`openConnections, this`conns, connections
      ensures Valid()
      ensures ret == 0 || ret == -1
      ensures ret == -1 <==> newConn == 0 || old(openConnections) == MAX_CONNECTIONS
      ensures ret == -1 ==> connections[..] == old(connections[..]) && openConnections == old(openConnections) && conns == old(conns)
      ensures ret == 0 ==>
        && conns == old(conns)[newConn := Unknown] && openConnections == old(openConnections) + 1
        && exists i :: 0 <= i < MAX_CONNECTIONS && !old(connections[i]).connected
                       && (forall j :: 0 <= j < i ==> old(connections[j]).connected)
                       && connections[..] == old(connections[..])[i := Slot(true, newConn, Unknown)]
    {
      var i := 0;
      while i < MAX_CONNECTIONS && connections[i].connected
        invariant 0 <= i <= MAX_CONNECTIONS
        invariant forall j :: 0 <= j < i ==> connections[j].connected
      {
        i := i + 1;
      }
      CountFull(connections[..]);
      if i == MAX_CONNECTIONS {
        return -1;
      }
      if newConn == 0 {
        return -1;
      }
      ghost var was := connections[..];
      CountUpdate(was, i, Slot(true, newConn, Unknown));
      openConnections := openConnections + 1;
      conns := conns[newConn := Unknown];
      connections[i] := Slot(true, newConn, Unknown);
      assert connections[..] == was[i := Slot(true, newConn, Unknown)];
      return 0;
    }

    /** The thread accepts only while the table is not full, so a failure here is never the table's:
        the branch `Max connections reached` is dead. */
    method Accept(newConn: nat) returns (ret: int)
      requires Valid() && newConn !in conns
      modifies this`openConnections, this`conns, connections
      ensures Valid()
      ensures old(openConnections) < MAX_CONNECTIONS ==> (ret == -1 <==> newConn == 0)
      ensures openConnections == old(openConnections) + if ret == 0 then 1 else 0
      ensures ret != 0 ==> connections[..] == old(connections[..])
      ensures ret == 1 <==> old(openConnections) == MAX_CONNECTIONS
      ensures ret == 0 ==>
        exists i :: 0 <= i < MAX_CONNECTIONS && !old(connections[i]).connected
                    && (forall j :: 0 <= j < i ==> old(connections[j]).connected)
                    && connections[..] == old(connections[..])[i := Slot(true, newConn, Unknown)]
    {
      if openConnections < MAX_CONNECTIONS {
        ret := AddConnection(newConn);
      } else {
        ret := 1;  // the server socket is not selected
      }
    }

    method RemoveKnownConnections()
      requires Valid()
      modifies this`openConnections, this`conns, connections
      ensures Valid()
      ensures forall i :: 0 <= i < MAX_CONNECTIONS ==>
                connections[i] == if IsClient(old(connections[i])) then FREE else old(connections[i])
    {
      var i := 0;
      while i < MAX_CONNECTIONS
        invariant 0 <= i <= MAX_CONNECTIONS && Valid()
        invariant forall j :: 0 <= j < i ==>
                    connections[j] == if IsClient(old(connections[j])) then FREE else old(connections[j])
        invariant forall j :: i <= j < MAX_CONNECTIONS ==> connections[j] == old(connections[j])
      {
        if !(!connections[i].connected || connections[i].kind == Unknown) {
          ghost var was := connections[..];
          RemoveConnection(i);
          assert forall j :: 0 <= j < MAX_CONNECTIONS && j != i ==> connections[..][j] == was[j];
          assert connections[..][i] == FREE;
        }
        i := i + 1;
      }
    }

    /** The admission rule at the head of `conn_request`, for the connection in slot `i`: a new
        client is admitted if there is none, takes over under the no-hold option, and is turned
        down with status 409 otherwise. */
    method Admit(i: nat) returns (conflict: bool)
      requires Valid() && i < MAX_CONNECTIONS && connections[i].connected
      modifies this, connections
      ensures Valid()
      ensures conflict <==>
        && !nohold && old(connections[i]).kind == Unknown
        && exists j :: 0 <= j < MAX_CONNECTIONS && IsClient(old(connections[j]))
      ensures conflict || old(connections[i]).kind == Raop ==>
                connections[..] == old(connections[..]) && openConnections == old(openConnections) && conns == old(conns)
      ensures !conflict ==> IsClient(connections[i]) && connections[i].userData == old(connections[i]).userData
      ensures !conflict && old(connections[i]).kind == Unknown ==>
                forall j :: 0 <= j < MAX_CONNECTIONS && j != i ==>
                  connections[j] == if IsClient(old(connections[j])) then FREE else old(connections[j])
    {
      var conn := connections[i].userData;
      conflict := false;
      if conns[conn] == Unknown {
        var known := CountConnectionType(Raop);
        if known > 0 {
          if nohold {
            RemoveKnownConnections();
          } else {
            return true;
          }
        }
        MakeClient(i, conn);
      }
    }

    /** Marks slot and connection object as the client, when there is no other. */
    method MakeClient(i: nat, conn: nat)
      requires Valid() && i < MAX_CONNECTIONS && connections[i].connected && connections[i].userData == conn
      requires forall j :: 0 <= j < MAX_CONNECTIONS ==> !IsClient(connections[j])
      modifies this`conns, connections
      ensures Valid()
      ensures forall j :: 0 <= j < MAX_CONNECTIONS ==>
                connections[j] == if j == i then Slot(true, conn, Raop) else old(connections[j])
    {
      ghost var was := connections[..];
      var slot := SetConnectionType(conn, Raop);
      assert slot == i;
      CountUpdate(was, i, was[i].(kind := Raop));
      conns := conns[conn := Raop];
      assert forall j :: 0 <= j < MAX_CONNECTIONS ==> connections[..][j] == if j == i then was[i].(kind := Raop) else was[j];
    }

    /** What the thread does with one readable connection. After a request is handled, the slot
        still holds the connection it came from. */
    method HandleReadable(i: nat, input: Input) returns (conflict: bool)
      requires Valid() && i < MAX_CONNECTIONS && connections[i].connected
      modifies this, connections
      ensures Valid()
      ensures input.Closed? || input.Malformed? ==> connections[..] == old(connections[..])[i := FREE] && !conflict
      ensures input.Partial? ==> connections[..] == old(connections[..]) && !conflict
      ensures input.Request? ==>
        (conflict <==> !nohold && old(connections[i]).kind == Unknown
                       && exists j :: 0 <= j < MAX_CONNECTIONS && IsClient(old(connections[j])))
      ensures input.Request? ==>
        connections[i] == if input.disconnect then FREE
                          else Slot(true, old(connections[i]).userData, if conflict then Unknown else Raop)
      ensures input.Request? ==>
        forall j :: 0 <= j < MAX_CONNECTIONS && j != i ==>
          connections[j] == if !conflict && IsClient(old(connections[j])) then FREE else old(connections[j])
    {
      conflict := false;
      match input {
        case Closed => RemoveConnection(i);
        case Malformed => RemoveConnection(i);
        case Partial =>
        case Request(disconnect) =>
          conflict := Admit(i);
          if disconnect {
            RemoveConnection(i);
          }
      }
    }
  }
}
