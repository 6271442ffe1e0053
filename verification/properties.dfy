/** What the registry operations promise, proved about the functions that
    specify the methods of `Server`: the error paths, the effects of a
    successful join and leave, who receives a relayed message, what the sweep
    leaves behind, and the invariant that all of them keep. */
module RegistryProperties {
  import opened Messages
  import opened Members
  import opened Registry

  /** The sends an operation added after the ones already in `before`. */
  function NewSends(before: State, after: State): seq<Delivery> {
    if |before.outbox| <= |after.outbox| then after.outbox[|before.outbox|..] else []
  }

  // ---------------------------------------------------------------- join

  /** A missing code, or one shorter than 4 or longer than 8 characters:
      one error to the caller, and neither map changes. */
  lemma JoinRejectsInvalidCode(s: State, ws: Conn, room: Option<string>)
    requires !ValidCode(room)
    ensures var t := AfterJoin(s, ws, room);
            && t.rooms == s.rooms && t.clientRooms == s.clientRooms
            && t.outbox == s.outbox + [Delivery(ws, Error(InvalidCodeText))]
  {
  }

  /** Joining a room one is already in does nothing at all. */
  lemma JoinAgainIsNoOp(s: State, ws: Conn, code: string)
    requires ValidCode(Some(code)) && code in s.rooms && ws in s.rooms[code]
    ensures AfterJoin(s, ws, Some(code)) == s
  {
  }

  /** Joining a room that already holds two others: "Room is full" to the
      caller only, and neither map changes. */
  lemma JoinFullRoom(s: State, ws: Conn, code: string)
    requires ValidCode(Some(code)) && code in s.rooms
    requires ws !in s.rooms[code] && |s.rooms[code]| == Capacity
    ensures var t := AfterJoin(s, ws, Some(code));
            && t.rooms == s.rooms && t.clientRooms == s.clientRooms
            && t.outbox == s.outbox + [Delivery(ws, Error(RoomFullText))]
  {
  }

  /** A successful join appends the caller to the room and records the room
      for it; the caller is told it joined, as host exactly when it is alone,
      with the new member count; and only when the room becomes full does the
      other member hear of it (if its socket is open), never the joiner. */
  lemma JoinSucceeds(s: State, ws: Conn, code: string)
    requires ValidCode(Some(code))
    requires ws !in MembersOf(s.rooms, code) && |MembersOf(s.rooms, code)| < Capacity
    ensures var t, joined := AfterJoin(s, ws, Some(code)), MembersOf(s.rooms, code) + [ws];
            var n, notes := |joined|, NewSends(s, t);
            && t.rooms == s.rooms[code := joined]
            && t.clientRooms == s.clientRooms[ws := code]
            && t.outbox[..|s.outbox|] == s.outbox
            && |notes| >= 1 && notes[0] == Delivery(ws, Joined(code, n == 1, n))
            && (forall d :: d in notes[1..] <==>
                  && n == Capacity && d.msg == PeerJoined(code)
                  && d.to in MembersOf(s.rooms, code) && d.to in s.open)
            && (forall d :: d in notes[1..] ==> d.to != ws)
  {
    var t, joined := AfterJoin(s, ws, Some(code)), MembersOf(s.rooms, code) + [ws];
    var head := [Delivery(ws, Joined(code, |joined| == 1, |joined|))];
    var tail := if |joined| == 2 then Fanout(joined, {ws}, s.open, PeerJoined(code)) else [];
    assert t.outbox == s.outbox + head + tail;
    assert NewSends(s, t) == head + tail;
    assert NewSends(s, t)[1..] == tail;
  }

  /** When the room becomes full, the member already there gets exactly one
      "peer-joined" if its socket is open, and nobody else gets one. */
  lemma JoinNotifiesOnce(s: State, ws: Conn, code: string, c: Conn)
    requires ValidCode(Some(code)) && code in s.rooms
    requires ws !in s.rooms[code] && |s.rooms[code]| == 1
    ensures var notes := NewSends(s, AfterJoin(s, ws, Some(code)));
            multiset(notes)[Delivery(c, PeerJoined(code))]
            == if c == s.rooms[code][0] && c in s.open then 1 else 0
  {
    var t, joined := AfterJoin(s, ws, Some(code)), s.rooms[code] + [ws];
    var head := [Delivery(ws, Joined(code, false, 2))];
    var tail := Fanout(joined, {ws}, s.open, PeerJoined(code));
    assert t.outbox == s.outbox + head + tail;
    assert NewSends(s, t) == head + tail;
    assert joined == [s.rooms[code][0], ws];
    FanoutCount(joined, {ws}, s.open, PeerJoined(code), c);
  }

  lemma {:induction false} JoinKeepsInv(s: State, ws: Conn, room: Option<string>)
    requires Inv(s)
    ensures Inv(AfterJoin(s, ws, room))
  {
    if ValidCode(room) {
      var members := MembersOf(s.rooms, room.value);
      if ws !in members && |members| < Capacity {
        NoDupAppend(members, ws);
      }
    }
  }

  /** Joining a second room records the new room for the caller but leaves it
      a member of the first one. */
  lemma JoinElsewhereKeepsOldMembership(s: State, ws: Conn, first: string, second: string)
    requires first in s.rooms && ws in s.rooms[first] && first != second
    requires ValidCode(Some(second))
    requires ws !in MembersOf(s.rooms, second) && |MembersOf(s.rooms, second)| < Capacity
    ensures var t := AfterJoin(s, ws, Some(second));
            first in t.rooms && ws in t.rooms[first] && t.clientRooms[ws] == second
  {
  }

  // ---------------------------------------------------------------- leave

  /** Leaving a room that does not exist changes nothing and sends nothing. */
  lemma LeaveAbsentRoom(s: State, ws: Conn, room: Option<string>)
    requires room.None? || room.value !in s.rooms
    ensures AfterLeave(s, ws, room) == s
  {
  }

  /** Leaving an existing room removes the caller from it and from
      `clientRooms`, deletes the room exactly when it became empty, and leaves
      the other rooms alone. */
  lemma LeaveEffects(s: State, ws: Conn, code: string)
    requires code in s.rooms
    ensures var t, rest := AfterLeave(s, ws, Some(code)), Without(s.rooms[code], ws);
            && (code in t.rooms <==> rest != [])
            && (code in t.rooms ==> t.rooms[code] == rest)
            && ws !in MembersOf(t.rooms, code)
            && t.rooms - {code} == s.rooms - {code}
            && t.clientRooms == s.clientRooms - {ws}
  {
    var t, rest := AfterLeave(s, ws, Some(code)), Without(s.rooms[code], ws);
    if rest == [] {
      assert t.rooms == s.rooms - {code};
    } else {
      assert t.rooms == s.rooms[code := rest];
    }
  }

  /** Leaving an existing room sends "peer-left" to each remaining member
      whose socket is open, and to nobody else. */
  lemma LeaveNotifies(s: State, ws: Conn, code: string)
    requires code in s.rooms
    ensures var t := AfterLeave(s, ws, Some(code));
            && t.outbox[..|s.outbox|] == s.outbox
            && (forall d :: d in NewSends(s, t) <==>
                  && d.msg == PeerLeft(code) && d.to in s.rooms[code]
                  && d.to != ws && d.to in s.open)
  {
    var t, rest := AfterLeave(s, ws, Some(code)), Without(s.rooms[code], ws);
    var sends := Fanout(rest, {}, s.open, PeerLeft(code));
    assert t.outbox == s.outbox + sends;
    assert NewSends(s, t) == sends;
    forall d
      ensures d in sends <==> d.msg == PeerLeft(code) && d.to in s.rooms[code] && d.to != ws && d.to in s.open
    {
      assert d.to in rest <==> d.to in s.rooms[code] && d.to != ws;
    }
  }

  /** In a well-formed registry each remaining open member gets exactly one
      "peer-left". */
  lemma LeaveNotifiesOnce(s: State, ws: Conn, code: string, c: Conn)
    requires Inv(s) && code in s.rooms
    ensures multiset(NewSends(s, AfterLeave(s, ws, Some(code))))[Delivery(c, PeerLeft(code))]
            == if c in s.rooms[code] && c != ws && c in s.open then 1 else 0
  {
    var t, rest := AfterLeave(s, ws, Some(code)), Without(s.rooms[code], ws);
    assert NewSends(s, t) == Fanout(rest, {}, s.open, PeerLeft(code));
    WithoutNoDup(s.rooms[code], ws);
    FanoutCount(rest, {}, s.open, PeerLeft(code), c);
  }

  lemma {:induction false} LeaveKeepsInv(s: State, ws: Conn, room: Option<string>)
    requires Inv(s)
    ensures Inv(AfterLeave(s, ws, room))
  {
    if room.Some? && room.value in s.rooms {
      var code := room.value;
      var t, rest := AfterLeave(s, ws, room), Without(s.rooms[code], ws);
      WithoutNoDup(s.rooms[code], ws);
      forall k | k in t.rooms
        ensures ValidCode(Some(k)) && 1 <= |t.rooms[k]| <= Capacity && NoDup(t.rooms[k])
      {
        if k == code {
          assert t.rooms[k] == rest;
        } else {
          assert t.rooms[k] == s.rooms[k];
        }
      }
    }
  }

  /** `leaveRoom` does not check membership: while the room still has
      members, a second "leave" by the same connection changes no map and
      sends "peer-left" to the remaining open members again. */
  lemma LeaveTwiceNotifiesTwice(s: State, ws: Conn, code: string)
    requires code in s.rooms && Without(s.rooms[code], ws) != []
    ensures var rest := Without(s.rooms[code], ws);
            var sends := Fanout(rest, {}, s.open, PeerLeft(code));
            var u := AfterLeave(s, ws, Some(code));
            var t := AfterLeave(u, ws, Some(code));
            && u.outbox == s.outbox + sends
            && t.rooms == u.rooms && t.clientRooms == u.clientRooms
            && t.outbox == u.outbox + sends
  {
    var rest := Without(s.rooms[code], ws);
    assert ws !in rest;
    assert Without(rest, ws) == rest;
  }

  // ---------------------------------------------------------------- relay

  /** Relaying to a room that does not exist: one error to the sender, and
      nothing else changes. */
  lemma RelayUnknownRoom(s: State, sender: Conn, room: Option<string>, message: Signal)
    requires room.None? || room.value !in s.rooms
    ensures AfterRelay(s, sender, room, message)
            == s.(outbox := s.outbox + [Delivery(sender, Error(RoomNotFoundText))])
  {
  }

  /** Relaying to an existing room changes no map and delivers the message,
      unchanged, exactly once to every open member other than the sender, and
      to nobody else. The sender need not be a member. */
  lemma RelayDelivers(s: State, sender: Conn, code: string, message: Signal, c: Conn)
    requires Inv(s) && code in s.rooms
    ensures var t := AfterRelay(s, sender, Some(code), message);
            && t.rooms == s.rooms && t.clientRooms == s.clientRooms
            && t.outbox[..|s.outbox|] == s.outbox
            && (forall d :: d in NewSends(s, t) ==> d.msg == Relayed(message))
            && multiset(NewSends(s, t))[Delivery(c, Relayed(message))]
               == if c in s.rooms[code] && c != sender && c in s.open then 1 else 0
  {
    var t := AfterRelay(s, sender, Some(code), message);
    assert NewSends(s, t) == Fanout(s.rooms[code], {sender}, s.open, Relayed(message));
    FanoutCount(s.rooms[code], {sender}, s.open, Relayed(message), c);
  }

  // ---------------------------------------------------------------- sweep

  /** After the sweep every member of every room is open, no open member has
      been removed, the rooms without an open member are exactly the ones
      deleted, and nothing but `rooms` changes. */
  lemma SweepEffects(s: State)
    ensures var t := AfterSweep(s);
            && t.clientRooms == s.clientRooms && t.open == s.open && t.outbox == s.outbox
            && (forall code, c :: code in t.rooms && c in t.rooms[code] ==> c in s.open)
            && (forall code, c :: code in s.rooms && c in s.rooms[code] && c in s.open ==>
                  code in t.rooms && c in t.rooms[code])
            && (forall code :: code in t.rooms ==> t.rooms[code] != [])
            && t.rooms.Keys == s.rooms.Keys - Reaped(s.rooms, s.open)
            && |Reaped(s.rooms, s.open)| == |s.rooms| - |t.rooms|
  {
    var t := AfterSweep(s);
    forall code, c | code in s.rooms && c in s.rooms[code] && c in s.open
      ensures code in t.rooms && c in t.rooms[code]
    {
      assert c in KeepOpen(s.rooms[code], s.open);
    }
    SweptSize(s.rooms, s.open);
  }

  /** The sweep keeps every room at one or two distinct members with a valid
      code. */
  lemma SweepKeepsInv(s: State)
    requires Inv(s)
    ensures Inv(AfterSweep(s))
  {
    var t := AfterSweep(s);
    forall code | code in t.rooms
      ensures ValidCode(Some(code)) && 1 <= |t.rooms[code]| <= Capacity && NoDup(t.rooms[code])
    {
      KeepOpenNoDup(s.rooms[code], s.open);
    }
  }

  // ---------------------------------------------------------------- join and leave

  /** Joining a new room and leaving it again restores the rooms; only the
      caller's `clientRooms` entry is gone and the "joined" reply stays sent. */
  lemma JoinThenLeave(s: State, ws: Conn, code: string)
    requires ValidCode(Some(code)) && code !in s.rooms
    ensures var t := AfterLeave(AfterJoin(s, ws, Some(code)), ws, Some(code));
            && t.rooms == s.rooms
            && t.clientRooms == s.clientRooms - {ws}
            && t.outbox == s.outbox + [Delivery(ws, Joined(code, true, 1))]
  {
    assert [ws][..0] == [];
    assert Without([ws], ws) == [];
    var u := AfterJoin(s, ws, Some(code));
    assert u.rooms - {code} == s.rooms;
  }
}
