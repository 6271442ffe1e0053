/** The member list of one room. The source keeps it in a JavaScript `Set`,
    which iterates in insertion order; here it is a sequence without
    duplicates. */
module Members {
  import opened Messages

  /** The sequence holds each connection at most once, as a `Set` does. */
  predicate NoDup(s: seq<Conn>) {
    forall i, j :: 0 <= i < j < |s| ==> s[i] != s[j]
  }

  lemma NoDupAppend(s: seq<Conn>, c: Conn)
    requires NoDup(s) && c !in s
    ensures NoDup(s + [c])
  {
  }

  /** `room.delete(c)`: the members other than `c`, in their order. */
  function Without(s: seq<Conn>, c: Conn): (r: seq<Conn>)
    ensures forall x {:trigger x in r} :: x in r <==> x in s && x != c
    ensures |r| <= |s|
    ensures c !in s ==> r == s
  {
    if s == [] then []
    else
      var init, last := s[..|s| - 1], s[|s| - 1];
      assert s == init + [last];
      Without(init, c) + (if last == c then [] else [last])
  }

  /** Deleting from a room without duplicates leaves none, and removes one
      member exactly when `c` was a member. */
  lemma {:induction false} WithoutNoDup(s: seq<Conn>, c: Conn)
    requires NoDup(s)
    ensures NoDup(Without(s, c))
    ensures c in s ==> |Without(s, c)| == |s| - 1
  {
    if s != [] {
      var init, last := s[..|s| - 1], s[|s| - 1];
      assert s == init + [last];
      assert NoDup(init) && last !in init;
      WithoutNoDup(init, c);
      assert Without(s, c) == Without(init, c) + (if last == c then [] else [last]);
      if last != c {
        assert last !in Without(init, c);
      }
    }
  }

  /** What the sweep leaves of a room: the members whose socket is open, in
      their order. */
  function KeepOpen(s: seq<Conn>, open: set<Conn>): (r: seq<Conn>)
    ensures forall x {:trigger x in r} :: x in r <==> x in s && x in open
    ensures |r| <= |s|
  {
    if s == [] then []
    else
      var init, last := s[..|s| - 1], s[|s| - 1];
      assert s == init + [last];
      KeepOpen(init, open) + (if last in open then [last] else [])
  }

  /** Filtering a room without duplicates leaves none. */
  lemma {:induction false} KeepOpenNoDup(s: seq<Conn>, open: set<Conn>)
    requires NoDup(s)
    ensures NoDup(KeepOpen(s, open))
  {
    if s != [] {
      var init, last := s[..|s| - 1], s[|s| - 1];
      assert s == init + [last];
      assert NoDup(init) && last !in init;
      KeepOpenNoDup(init, open);
      assert KeepOpen(s, open) == KeepOpen(init, open) + (if last in open then [last] else []);
      if last in open {
        assert last !in KeepOpen(init, open);
      }
    }
  }

  /** The sends of a `room.forEach` notification loop: `msg` goes, in room
      order, to every member that is not in `skip` and whose socket is open. */
  function Fanout(members: seq<Conn>, skip: set<Conn>, open: set<Conn>, msg: Msg): (out: seq<Delivery>)
    ensures |out| <= |members|
    ensures forall d {:trigger d in out} :: d in out <==> d.msg == msg && d.to in members && d.to !in skip && d.to in open
  {
    if members == [] then []
    else
      var init, last := members[..|members| - 1], members[|members| - 1];
      assert members == init + [last];
      Fanout(init, skip, open, msg) + (if last !in skip && last in open then [Delivery(last, msg)] else [])
  }

  /** One more turn of the notification loop. */
  lemma FanoutStep(members: seq<Conn>, skip: set<Conn>, open: set<Conn>, msg: Msg, i: nat)
    requires i < |members|
    ensures Fanout(members[..i + 1], skip, open, msg)
            == Fanout(members[..i], skip, open, msg)
               + (if members[i] !in skip && members[i] in open then [Delivery(members[i], msg)] else [])
  {
    assert members[..i + 1][..i] == members[..i];
  }

  /** In a room without duplicates, every member the loop is meant to reach
      gets the message exactly once. */
  lemma {:induction false} FanoutOnce(members: seq<Conn>, skip: set<Conn>, open: set<Conn>, msg: Msg, c: Conn)
    requires NoDup(members) && c in members && c !in skip && c in open
    ensures multiset(Fanout(members, skip, open, msg))[Delivery(c, msg)] == 1
  {
    var init, last := members[..|members| - 1], members[|members| - 1];
    assert members == init + [last];
    var step := if last !in skip && last in open then [Delivery(last, msg)] else [];
    assert Fanout(members, skip, open, msg) == Fanout(init, skip, open, msg) + step;
    if last == c {
      assert c !in init;
      assert Delivery(c, msg) !in Fanout(init, skip, open, msg);
    } else {
      FanoutOnce(init, skip, open, msg, c);
    }
  }

  /** Every recipient gets the message once, and nobody else gets it. */
  lemma FanoutCount(members: seq<Conn>, skip: set<Conn>, open: set<Conn>, msg: Msg, c: Conn)
    requires NoDup(members)
    ensures multiset(Fanout(members, skip, open, msg))[Delivery(c, msg)]
            == if c in members && c !in skip && c in open then 1 else 0
  {
    if c in members && c !in skip && c in open {
      FanoutOnce(members, skip, open, msg, c);
    } else {
      assert Delivery(c, msg) !in Fanout(members, skip, open, msg);
    }
  }
}
