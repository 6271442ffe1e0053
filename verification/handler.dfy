/** The connection handlers that feed the registry: the message dispatcher
    and the handler run when a socket closes. */
module Handler {
  import opened Messages
  import opened Members
  import opened Registry
  import RegistryProperties

  const RelayKinds: set<string> := {"offer", "answer", "ice-candidate"}

  /** `handleMessage`: "join" and "leave" go to the registry with the
      message's room, the three handshake kinds are relayed as a whole, and
      any other kind is ignored. */
  function Dispatch(s: State, ws: Conn, message: Signal): State {
    if message.kind == "join" then AfterJoin(s, ws, message.room)
    else if message.kind == "leave" then AfterLeave(s, ws, message.room)
    else if message.kind in RelayKinds then AfterRelay(s, ws, message.room, message)
    else s
  }

  /** The close handler: leave the room recorded for the connection, if a
      non-empty code is recorded (`if (roomCode)` in the source). */
  function AfterClose(s: State, ws: Conn): State {
    if ws in s.clientRooms && s.clientRooms[ws] != "" then AfterLeave(s, ws, Some(s.clientRooms[ws]))
    else s
  }

  method HandleMessage(server: Server, ws: Conn, message: Signal)
    modifies server
    ensures server.St() == Dispatch(old(server.St()), ws, message)
  {
    if message.kind == "join" {
      server.Join(ws, message.room);
    } else if message.kind == "leave" {
      server.Leave(ws, message.room);
    } else if message.kind == "offer" || message.kind == "answer" || message.kind == "ice-candidate" {
      server.Relay(ws, message.room, message);
    }
  }

  method OnClose(server: Server, ws: Conn)
    modifies server
    ensures server.St() == AfterClose(old(server.St()), ws)
  {
    if ws in server.clientRooms {
      var code := server.clientRooms[ws];
      if code != "" {
        server.Leave(ws, Some(code));
      }
    }
  }

  /** A message of an unknown kind changes nothing and sends nothing. */
  lemma DispatchIgnoresUnknown(s: State, ws: Conn, message: Signal)
    requires message.kind !in RelayKinds && message.kind != "join" && message.kind != "leave"
    ensures Dispatch(s, ws, message) == s
  {
  }

  /** The three handshake kinds are treated alike: each is relayed whole to
      the room named in the message, and neither map changes. */
  lemma DispatchRelaysHandshakes(s: State, ws: Conn, message: Signal)
    requires message.kind in RelayKinds
    ensures Dispatch(s, ws, message) == AfterRelay(s, ws, message.room, message)
    ensures Dispatch(s, ws, message).rooms == s.rooms
    ensures Dispatch(s, ws, message).clientRooms == s.clientRooms
  {
  }

  /** Every message keeps the registry well formed. */
  lemma {:induction false} DispatchKeepsInv(s: State, ws: Conn, message: Signal)
    requires Inv(s)
    ensures Inv(Dispatch(s, ws, message))
  {
    if message.kind == "join" {
      RegistryProperties.JoinKeepsInv(s, ws, message.room);
    } else if message.kind == "leave" {
      RegistryProperties.LeaveKeepsInv(s, ws, message.room);
    }
  }

  /** In a well-formed registry a recorded code is never empty, so closing
      leaves exactly the recorded room, and a connection without a record
      changes nothing. Closing keeps the registry well formed. */
  lemma {:induction false} CloseEffects(s: State, ws: Conn)
    requires Inv(s)
    ensures ws in s.clientRooms ==> AfterClose(s, ws) == AfterLeave(s, ws, Some(s.clientRooms[ws]))
    ensures ws !in s.clientRooms ==> AfterClose(s, ws) == s
    ensures Inv(AfterClose(s, ws))
  {
    if ws in s.clientRooms {
      assert ValidCode(Some(s.clientRooms[ws]));
      RegistryProperties.LeaveKeepsInv(s, ws, Some(s.clientRooms[ws]));
    }
  }

  /** The sweep does not clear `clientRooms`: once a connection's room is
      swept away, a later close finds no room, changes nothing and keeps the
      connection's record. */
  lemma CloseAfterSweepKeepsRecord(s: State, ws: Conn, code: string)
    requires code in s.rooms && KeepOpen(s.rooms[code], s.open) == []
    requires ws in s.clientRooms && s.clientRooms[ws] == code
    ensures var t := AfterClose(AfterSweep(s), ws);
            && t == AfterSweep(s)
            && code !in t.rooms && ws in t.clientRooms
  {
  }

  /** The stale record has a visible effect: when another connection `x`
      opens a room under the swept code before the dead socket's close
      arrives, that close sends "peer-left" to `x` (if open) and leaves the
      room to `x`, as if the dead socket had been its peer. */
  lemma LateCloseNotifiesNewcomer(s: State, ws: Conn, x: Conn, code: string)
    requires code in s.rooms && KeepOpen(s.rooms[code], s.open) == []
    requires ws in s.clientRooms && s.clientRooms[ws] == code
    requires ValidCode(Some(code)) && x != ws
    ensures var u := AfterJoin(AfterSweep(s), x, Some(code));
            var t := AfterClose(u, ws);
            && code in u.rooms && u.rooms[code] == [x]
            && code in t.rooms && t.rooms[code] == [x]
            && ws !in t.clientRooms
            && t.outbox == u.outbox + (if x in s.open then [Delivery(x, PeerLeft(code))] else [])
  {
    var v := AfterSweep(s);
    assert code !in v.rooms && v.clientRooms == s.clientRooms && v.open == s.open;
    assert MembersOf(v.rooms, code) == [];
    assert MembersOf(v.rooms, code) + [x] == [x];
    var joinedMsg := [Delivery(x, Joined(code, true, 1))];
    assert v.outbox + joinedMsg + [] == v.outbox + joinedMsg;
    var u := AfterJoin(v, x, Some(code));
    assert u == v.(rooms := v.rooms[code := [x]], clientRooms := v.clientRooms[x := code],
                   outbox := v.outbox + joinedMsg);
    assert u.clientRooms[ws] == code && code != "";
    assert [x][..0] == [];
    assert Without([x], ws) == [x];
    var sends := Fanout([x], {}, s.open, PeerLeft(code));
    assert sends == if x in s.open then [Delivery(x, PeerLeft(code))] else [];
    assert AfterClose(u, ws) == u.(rooms := u.rooms[code := [x]], clientRooms := u.clientRooms - {ws},
                                   outbox := u.outbox + sends);
  }
}
