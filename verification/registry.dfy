/** The in-memory room registry of the signalling server: the `rooms` and
    `clientRooms` maps, the three operations on them (join, leave, relay) and
    the periodic sweep. Each operation is given twice: as a function from the
    state before to the state after, which the lemmas reason about, and as a
    method of `Server` that updates the fields in place the way the server
    does, proved to agree with that function. */
module Registry {
  import opened Messages
  import opened Members

  /** A room holds at most two peers. */
  const Capacity := 2
  const MinCodeLength := 4
  const MaxCodeLength := 8

  /** The room-code test of `joinRoom`: the field is present and holds 4 to 8
      characters (the empty string is rejected by the length test). */
  predicate ValidCode(room: Option<string>) {
    room.Some? && MinCodeLength <= |room.value| <= MaxCodeLength
  }

  /** Everything the registry reads or writes:
      `rooms`       room code to its members in arrival order;
      `clientRooms` connection to the code of the room it last joined;
      `open`        the connections whose socket is in the OPEN state;
      `outbox`      every `send` made so far, in order. */
  datatype State = State(
    rooms: map<string, seq<Conn>>,
    clientRooms: map<Conn, string>,
    open: set<Conn>,
    outbox: seq<Delivery>)

  /** The members of a room, or none when the code has no room. */
  function MembersOf(rooms: map<string, seq<Conn>>, code: string): seq<Conn> {
    if code in rooms then rooms[code] else []
  }

  /** What holds between operations: every room has a valid code and one or
      two distinct members, and every recorded room code is valid. Nothing
      ties `clientRooms` to `rooms` beyond that: the server does not keep the
      two maps consistent. */
  predicate Inv(s: State) {
    && (forall code :: code in s.rooms ==>
          ValidCode(Some(code)) && 1 <= |s.rooms[code]| <= Capacity && NoDup(s.rooms[code]))
    && (forall c :: c in s.clientRooms ==> ValidCode(Some(s.clientRooms[c])))
  }

  function AfterJoin(s: State, ws: Conn, room: Option<string>): State {
    if !ValidCode(room) then
      s.(outbox := s.outbox + [Delivery(ws, Error(InvalidCodeText))])
    else
      var code := room.value;
      var members := MembersOf(s.rooms, code);
      if ws in members then
        s
      else if |members| >= Capacity then
        s.(outbox := s.outbox + [Delivery(ws, Error(RoomFullText))])
      else
        var joined := members + [ws];
        var n := |joined|;
        s.(rooms := s.rooms[code := joined],
           clientRooms := s.clientRooms[ws := code],
           outbox := s.outbox + [Delivery(ws, Joined(code, n == 1, n))]
                     + (if n == 2 then Fanout(joined, {ws}, s.open, PeerJoined(code)) else []))
  }

  function AfterLeave(s: State, ws: Conn, room: Option<string>): State {
    if room.None? || room.value !in s.rooms then
      s
    else
      var code := room.value;
      var rest := Without(s.rooms[code], ws);
      s.(rooms := if rest == [] then s.rooms - {code} else s.rooms[code := rest],
         clientRooms := s.clientRooms - {ws},
         outbox := s.outbox + Fanout(rest, {}, s.open, PeerLeft(code)))
  }

  function AfterRelay(s: State, sender: Conn, room: Option<string>, message: Signal): State {
    if room.None? || room.value !in s.rooms then
      s.(outbox := s.outbox + [Delivery(sender, Error(RoomNotFoundText))])
    else
      s.(outbox := s.outbox + Fanout(s.rooms[room.value], {sender}, s.open, Relayed(message)))
  }

  /** The rooms that the sweep deletes: those with no open member. */
  function Reaped(rooms: map<string, seq<Conn>>, open: set<Conn>): set<string> {
    set code | code in rooms && KeepOpen(rooms[code], open) == []
  }

  /** The rooms after the sweep: each keeps its open members; a room left
      without members is gone. */
  function SweptRooms(rooms: map<string, seq<Conn>>, open: set<Conn>): map<string, seq<Conn>> {
    map code | code in rooms && KeepOpen(rooms[code], open) != [] :: KeepOpen(rooms[code], open)
  }

  function AfterSweep(s: State): State {
    s.(rooms := SweptRooms(s.rooms, s.open))
  }

  /** Where the sweep stands once it has visited every room of `rooms`
      except those in `todo`: the visited rooms are swept, the others are
      untouched. */
  function PartlySwept(rooms: map<string, seq<Conn>>, open: set<Conn>, todo: set<string>): map<string, seq<Conn>> {
    map code | code in rooms && (code in todo || KeepOpen(rooms[code], open) != []) ::
      if code in todo then rooms[code] else KeepOpen(rooms[code], open)
  }

  /** Visiting one more room: its members are filtered, and the room is
      deleted when none is left. */
  lemma SweepStep(rooms: map<string, seq<Conn>>, open: set<Conn>, todo: set<string>, code: string)
    requires code in todo && code in rooms
    ensures var swept, kept := PartlySwept(rooms, open, todo), KeepOpen(rooms[code], open);
            && code in swept && swept[code] == rooms[code]
            && PartlySwept(rooms, open, todo - {code})
               == if kept == [] then swept[code := kept] - {code} else swept[code := kept]
  {
    var swept, kept := PartlySwept(rooms, open, todo), KeepOpen(rooms[code], open);
    var next := PartlySwept(rooms, open, todo - {code});
    var target := if kept == [] then swept[code := kept] - {code} else swept[code := kept];
    forall k
      ensures k in next <==> k in target
      ensures k in next ==> next[k] == target[k]
    {
      if k != code {
        assert k in next <==> k in swept;
      }
    }
    assert next == target;
  }

  /** Every room is either kept or deleted by the sweep, so the rooms kept
      and the rooms deleted add up to the rooms there were. */
  lemma SweptSize(rooms: map<string, seq<Conn>>, open: set<Conn>)
    ensures |SweptRooms(rooms, open)| + |Reaped(rooms, open)| == |rooms|
  {
    var kept, gone := SweptRooms(rooms, open).Keys, Reaped(rooms, open);
    assert kept + gone == rooms.Keys;
    assert kept * gone == {};
    assert |kept + gone| == |kept| + |gone|;
  }

  /** Before the first room is visited nothing is swept; after the last, all is. */
  lemma SweepEnds(rooms: map<string, seq<Conn>>, open: set<Conn>)
    ensures PartlySwept(rooms, open, rooms.Keys) == rooms
    ensures PartlySwept(rooms, open, {}) == SweptRooms(rooms, open)
  {
  }

  /** The server's mutable state. */
  class Server {
    var rooms: map<string, seq<Conn>>
    var clientRooms: map<Conn, string>
    var open: set<Conn>
    var outbox: seq<Delivery>

    function St(): State
      reads this
    {
      State(rooms, clientRooms, open, outbox)
    }

    constructor ()
      ensures St() == State(map[], map[], {}, [])
      ensures Inv(St())
    {
      rooms, clientRooms, open, outbox := map[], map[], {}, [];
    }

    /** The transport accepts a connection; its socket is open. */
    method Connect(c: Conn)
      modifies this
      ensures St() == old(St()).(open := old(open) + {c})
    {
      open := open + {c};
    }

    /** The transport sees a socket leave the OPEN state. */
    method Disconnect(c: Conn)
      modifies this
      ensures St() == old(St()).(open := old(open) - {c})
    {
      open := open - {c};
    }

    /** A `room.forEach` loop that sends `msg` to every open member not in
        `skip`. */
    method Broadcast(members: seq<Conn>, skip: set<Conn>, msg: Msg)
      modifies this`outbox
      ensures outbox == old(outbox) + Fanout(members, skip, open, msg)
    {
      var i := 0;
      while i < |members|
        invariant 0 <= i <= |members|
        invariant outbox == old(outbox) + Fanout(members[..i], skip, open, msg)
      {
        var client := members[i];
        FanoutStep(members, skip, open, msg, i);
        if client !in skip && client in open {
          outbox := outbox + [Delivery(client, msg)];
        }
        i := i + 1;
      }
      assert members[..i] == members;
    }

    method Join(ws: Conn, room: Option<string>)
      modifies this
      ensures St() == AfterJoin(old(St()), ws, room)
    {
      if !ValidCode(room) {
        outbox := outbox + [Delivery(ws, Error(InvalidCodeText))];
        return;
      }
      var code := room.value;
      if code !in rooms {
        rooms := rooms[code := []];
      }
      var members := rooms[code];
      if ws in members {
        return;
      }
      if |members| >= Capacity {
        outbox := outbox + [Delivery(ws, Error(RoomFullText))];
        return;
      }
      members := members + [ws];
      rooms := rooms[code := members];
      clientRooms := clientRooms[ws := code];
      var isHost := |members| == 1;
      outbox := outbox + [Delivery(ws, Joined(code, isHost, |members|))];
      if |members| == 2 {
        Broadcast(members, {ws}, PeerJoined(code));
      }
    }

    method Leave(ws: Conn, room: Option<string>)
      modifies this
      ensures St() == AfterLeave(old(St()), ws, room)
    {
      if room.Some? && room.value in rooms {
        var code := room.value;
        var members := Without(rooms[code], ws);
        rooms := rooms[code := members];
        clientRooms := clientRooms - {ws};
        Broadcast(members, {}, PeerLeft(code));
        if |members| == 0 {
          rooms := rooms - {code};
        }
        assert rooms == AfterLeave(old(St()), ws, room).rooms;
      }
    }

    method Relay(sender: Conn, room: Option<string>, message: Signal)
      modifies this
      ensures St() == AfterRelay(old(St()), sender, room, message)
    {
      if room.None? || room.value !in rooms {
        outbox := outbox + [Delivery(sender, Error(RoomNotFoundText))];
        return;
      }
      Broadcast(rooms[room.value], {sender}, Relayed(message));
    }

    /** The inner `room.forEach` of the cleanup: the members of one room
        whose socket is open, in their order. */
    method OpenMembers(members: seq<Conn>) returns (kept: seq<Conn>)
      ensures kept == KeepOpen(members, open)
    {
      kept := [];
      var i := 0;
      while i < |members|
        invariant 0 <= i <= |members|
        invariant kept == KeepOpen(members[..i], open)
      {
        assert members[..i + 1] == members[..i] + [members[i]];
        if members[i] in open {
          kept := kept + [members[i]];
        }
        i := i + 1;
      }
      assert members[..i] == members;
    }

    /** One room of the cleanup: drop its members whose socket is not open
        and delete it when none is left; say whether it was deleted. */
    method SweepRoom(code: string) returns (deleted: bool)
      requires code in rooms
      modifies this`rooms
      ensures var kept := KeepOpen(old(rooms)[code], open);
              && deleted == (kept == [])
              && rooms == if deleted then old(rooms)[code := kept] - {code} else old(rooms)[code := kept]
    {
      var kept := OpenMembers(rooms[code]);
      rooms := rooms[code := kept];
      deleted := |kept| == 0;
      if deleted {
        rooms := rooms - {code};
      }
    }

    /** The body of the periodic cleanup: visits every room, drops its members
        whose socket is not open, deletes the rooms left empty and returns how
        many it deleted. */
    method Sweep() returns (cleaned: nat)
      modifies this`rooms
      ensures St() == AfterSweep(old(St()))
      ensures cleaned == |Reaped(old(rooms), open)|
    {
      cleaned := 0;
      ghost var before := rooms;
      var todo := rooms.Keys;
      SweepEnds(before, open);
      while todo != {}
        invariant todo <= before.Keys
        invariant rooms == PartlySwept(before, open, todo)
        invariant cleaned + |rooms| == |before|
        decreases todo
      {
        var code :| code in todo;
        SweepStep(before, open, todo, code);
        var deleted := SweepRoom(code);
        todo := todo - {code};
        if deleted {
          cleaned := cleaned + 1;
        }
      }
      SweptSize(before, open);
    }
  }
}
