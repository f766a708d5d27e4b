/** The roster of remote peers (`PeersManager`): one link record per peer id,
    created, re-homed, refreshed and removed as the signaling server reports
    peers arriving, leaving and rooms being deleted. */
module Registry {
  import opened Wire

  /** A direct WebRTC link (caller: it opened the connection itself) or a link
      relayed through the signaling server. */
  datatype Transport = Rtc(caller: bool) | Ws

  /** The room a peer was seen in: its type and, where the room has one, its secret. */
  datatype Room = Room(roomType: string, roomSecret: Option<string>)

  /** A peer link as the roster sees it: its transport; the `_roomType` and
      `_roomSecret` set by its constructor and by create-or-update (`room`); and
      the separate, underscore-less `roomType` and `roomSecret` properties that
      the roster handler reads and writes (`bare`), absent until it first
      writes them. */
  datatype Link = Link(transport: Transport, room: Room, bare: Option<Room>)

  /** One entry of a `peers` message from the server. */
  datatype RosterPeer = RosterPeer(id: string, rtcSupported: bool)

  /** The transport given to a peer first seen in a roster: WebRTC, as the
      caller, when both ends support it, otherwise the relay. */
  function KindFor(localRtc: bool, p: RosterPeer): (t: Transport)
    ensures t.Rtc? <==> localRtc && p.rtcSupported
    ensures t.Rtc? ==> t.caller
  {
    if localRtc && p.rtcSupported then Rtc(true) else Ws
  }

  /** `_refreshOrCreatePeer` on a known id: the room fields are replaced only
      when the room type differs; a changed secret alone is not taken over. */
  function Rehome(link: Link, room: Room): (l: Link)
    ensures l.transport == link.transport && l.bare == link.bare
    ensures l.room.roomType == room.roomType
    ensures link.room.roomType != room.roomType ==> l.room == room
    ensures link.room.roomType == room.roomType ==> l == link
  {
    if link.room.roomType != room.roomType then link.(room := room) else link
  }

  /** No id occurs twice. */
  predicate Distinct(s: seq<string>)
    decreases |s|
  {
    s == [] || (s[0] !in s[1..] && Distinct(s[1..]))
  }

  /** `keys` is the key order of the `peers` object: each id once, oldest first. */
  ghost predicate KeysMatch(peers: map<string, Link>, keys: seq<string>)
  {
    Distinct(keys) && forall id :: id in peers <==> id in keys
  }

  lemma {:induction false} DistinctSnoc(s: seq<string>, x: string)
    requires Distinct(s) && x !in s
    ensures Distinct(s + [x])
    decreases |s|
  {
    if s == [] {
      assert ([] + [x])[1..] == [];
    } else {
      DistinctSnoc(s[1..], x);
      assert (s + [x])[1..] == s[1..] + [x];
    }
  }

  /** A new id joins at the end of the key order. */
  lemma KeysMatchAdd(peers: map<string, Link>, keys: seq<string>, id: string, link: Link)
    requires KeysMatch(peers, keys) && id !in peers
    ensures KeysMatch(peers[id := link], keys + [id])
  {
    DistinctSnoc(keys, id);
  }

  function Ids(roster: seq<RosterPeer>): (ids: seq<string>)
    ensures |ids| == |roster|
    ensures forall i :: 0 <= i < |roster| ==> ids[i] == roster[i].id
  {
    if roster == [] then [] else [roster[0].id] + Ids(roster[1..])
  }

  /** The key order after `delete peers[id]`: the others, in their order. */
  function Remove(keys: seq<string>, id: string): (r: seq<string>)
    ensures forall x :: x in r <==> x in keys && x != id
  {
    if keys == [] then []
    else if keys[0] == id then Remove(keys[1..], id)
    else [keys[0]] + Remove(keys[1..], id)
  }

  lemma {:induction false} RemoveDistinct(keys: seq<string>, id: string)
    requires Distinct(keys)
    ensures Distinct(Remove(keys, id))
    decreases |keys|
  {
    if keys != [] {
      RemoveDistinct(keys[1..], id);
      if keys[0] != id {
        var r := Remove(keys[1..], id);
        assert ([keys[0]] + r)[1..] == r;
      }
    }
  }

  lemma {:induction false} RemoveAbsent(keys: seq<string>, id: string)
    requires id !in keys
    ensures Remove(keys, id) == keys
    decreases |keys|
  {
    if keys != [] {
      RemoveAbsent(keys[1..], id);
      assert keys == [keys[0]] + keys[1..];
    }
  }

  /** Deleting a key removes it from its place and leaves the order of the rest. */
  lemma {:induction false} RemoveAt(before: seq<string>, id: string, after: seq<string>)
    requires id !in before && id !in after
    ensures Remove(before + [id] + after, id) == before + after
    decreases |before|
  {
    var keys := before + [id] + after;
    if before == [] {
      assert keys[0] == id && keys[1..] == after;
      RemoveAbsent(after, id);
    } else {
      assert keys[0] == before[0] && keys[1..] == before[1..] + [id] + after;
      RemoveAt(before[1..], id, after);
      assert before + after == [before[0]] + (before[1..] + after);
    }
  }

  /** Deleting a peer twice leaves the key order as deleting it once. */
  lemma {:induction false} RemoveIdempotent(keys: seq<string>, id: string)
    ensures Remove(Remove(keys, id), id) == Remove(keys, id)
  {
    RemoveAbsent(Remove(keys, id), id);
  }

  /** The connection closed when `id` is removed: its own, if it has a
      WebRTC link. */
  function Closing(peers: map<string, Link>, id: string): seq<string>
  {
    if id in peers && peers[id].transport.Rtc? then [id] else []
  }

  /** The ids, in order, whose link is a WebRTC link: those whose connection is
      closed when they are removed. */
  function RtcIds(ids: seq<string>, peers: map<string, Link>): (r: seq<string>)
    ensures forall x :: x in r ==> x in ids && x in peers && peers[x].transport.Rtc?
  {
    if ids == [] then [] else Closing(peers, ids[0]) + RtcIds(ids[1..], peers)
  }

  /** Whether `id` has a link whose `_roomSecret` is `secret`. */
  predicate InRoom(peers: map<string, Link>, id: string, secret: string)
  {
    id in peers && peers[id].room.roomSecret == Some(secret)
  }

  /** The ids, in order, whose link's `_roomSecret` is `secret`. */
  function Inside(ids: seq<string>, peers: map<string, Link>, secret: string): seq<string>
  {
    if ids == [] then []
    else (if InRoom(peers, ids[0], secret) then [ids[0]] else []) + Inside(ids[1..], peers, secret)
  }

  /** The ids, in order, whose link's `_roomSecret` is not `secret`. */
  function Outside(ids: seq<string>, peers: map<string, Link>, secret: string): seq<string>
  {
    if ids == [] then []
    else (if InRoom(peers, ids[0], secret) then [] else [ids[0]]) + Outside(ids[1..], peers, secret)
  }

  /** `Inside` and `Outside` split the ids by their link's secret. */
  lemma {:induction false} InsideOutsideMembers(ids: seq<string>, peers: map<string, Link>, secret: string)
    ensures forall x :: x in Inside(ids, peers, secret) <==> x in ids && InRoom(peers, x, secret)
    ensures forall x :: x in Outside(ids, peers, secret) <==> x in ids && !InRoom(peers, x, secret)
    decreases |ids|
  {
    if ids != [] {
      InsideOutsideMembers(ids[1..], peers, secret);
      assert ids == [ids[0]] + ids[1..];
    }
  }

  /** Removing a link that `xs` does not name leaves the split of `xs` as it is. */
  lemma {:induction false} SplitWithout(xs: seq<string>, peers: map<string, Link>, id: string, secret: string)
    requires id !in xs
    ensures Inside(xs, peers - {id}, secret) == Inside(xs, peers, secret)
    ensures Outside(xs, peers - {id}, secret) == Outside(xs, peers, secret)
    decreases |xs|
  {
    if xs != [] {
      assert xs[0] in xs && xs[1..] <= xs[1..];
      assert forall x :: x in xs[1..] ==> x in xs;
      SplitWithout(xs[1..], peers, id, secret);
    }
  }

  /** Removing a link that `xs` does not name does not change which of `xs`
      have WebRTC links. */
  lemma {:induction false} RtcIdsWithout(xs: seq<string>, peers: map<string, Link>, id: string)
    requires id !in xs
    ensures RtcIds(xs, peers - {id}) == RtcIds(xs, peers)
    decreases |xs|
  {
    if xs != [] {
      assert xs[0] in xs;
      assert forall x :: x in xs[1..] ==> x in xs;
      RtcIdsWithout(xs[1..], peers, id);
    }
  }

  /** The roster after applying a `peers` message, the links refreshed on the
      way, and whether the walk stopped at a relayed link, which has no
      `refresh` to call. */
  datatype Reconciled = Reconciled(peers: map<string, Link>, keys: seq<string>, refreshed: seq<string>, aborted: bool)

  /** `_onPeers` as a walk over the roster entries. A known id whose
      underscore-less room type equals the message's is refreshed (a relayed
      link fails there and ends the walk); a known id with any other is given
      the message's room in those underscore-less fields; an unknown id gets a
      new link in the message's room. */
  function Reconcile(peers: map<string, Link>, keys: seq<string>, roster: seq<RosterPeer>, room: Room, localRtc: bool): Reconciled
    decreases |roster|
  {
    if roster == [] then Reconciled(peers, keys, [], false)
    else
      var p := roster[0];
      if p.id in peers then
        var link := peers[p.id];
        if link.bare.Some? && link.bare.value.roomType == room.roomType then
          if link.transport.Ws? then Reconciled(peers, keys, [], true)
          else
            var r := Reconcile(peers, keys, roster[1..], room, localRtc);
            r.(refreshed := [p.id] + r.refreshed)
        else Reconcile(peers[p.id := link.(bare := Some(room))], keys, roster[1..], room, localRtc)
      else Reconcile(peers[p.id := Link(KindFor(localRtc, p), room, None)], keys + [p.id], roster[1..], room, localRtc)
  }

  /** A roster message adds keys at the end and never drops or duplicates
      one; every key it adds is a roster id; and unless the walk stopped,
      every roster id is known afterwards. */
  lemma {:induction false} ReconcileKeys(peers: map<string, Link>, keys: seq<string>, roster: seq<RosterPeer>, room: Room, localRtc: bool)
    requires KeysMatch(peers, keys)
    ensures var r := Reconcile(peers, keys, roster, room, localRtc);
      && KeysMatch(r.peers, r.keys)
      && |keys| <= |r.keys| && r.keys[..|keys|] == keys
      && (forall id :: id in r.peers ==> id in peers || id in Ids(roster))
      && (!r.aborted ==> forall i :: 0 <= i < |roster| ==> roster[i].id in r.peers)
    decreases |roster|
  {
    if roster != [] {
      var p := roster[0];
      assert Ids(roster) == [p.id] + Ids(roster[1..]);
      if p.id in peers {
        var link := peers[p.id];
        if link.bare.Some? && link.bare.value.roomType == room.roomType {
          if link.transport.Rtc? {
            ReconcileKeys(peers, keys, roster[1..], room, localRtc);
          }
        } else {
          ReconcileKeys(peers[p.id := link.(bare := Some(room))], keys, roster[1..], room, localRtc);
        }
      } else {
        var keys' := keys + [p.id];
        KeysMatchAdd(peers, keys, p.id, Link(KindFor(localRtc, p), room, None));
        ReconcileKeys(peers[p.id := Link(KindFor(localRtc, p), room, None)], keys', roster[1..], room, localRtc);
        var r := Reconcile(peers, keys, roster, room, localRtc);
        assert r.keys[..|keys'|][..|keys|] == keys;
      }
    }
  }

  /** A roster message never changes the transport or the `_roomType` and
      `_roomSecret` of a link that was already known, and gives every link it
      creates the message's room and the transport `KindFor` chooses for a
      roster entry of that id. */
  lemma {:induction false} ReconcileLinks(peers: map<string, Link>, keys: seq<string>, roster: seq<RosterPeer>, room: Room, localRtc: bool)
    ensures var r := Reconcile(peers, keys, roster, room, localRtc);
      && (forall id :: id in peers ==> id in r.peers && r.peers[id].transport == peers[id].transport && r.peers[id].room == peers[id].room)
      && (forall id :: id in r.peers && id !in peers ==>
            r.peers[id].room == room
            && exists i :: 0 <= i < |roster| && roster[i].id == id && r.peers[id].transport == KindFor(localRtc, roster[i]))
    decreases |roster|
  {
    if roster != [] {
      var p := roster[0];
      var r := Reconcile(peers, keys, roster, room, localRtc);
      if p.id in peers {
        var link := peers[p.id];
        if link.bare.Some? && link.bare.value.roomType == room.roomType {
          if link.transport.Rtc? {
            ReconcileLinks(peers, keys, roster[1..], room, localRtc);
            var r' := Reconcile(peers, keys, roster[1..], room, localRtc);
            assert r.peers == r'.peers;
            forall id | id in r.peers && id !in peers
              ensures exists i :: 0 <= i < |roster| && roster[i].id == id && r.peers[id].transport == KindFor(localRtc, roster[i])
            {
              var j :| 0 <= j < |roster[1..]| && roster[1..][j].id == id && r'.peers[id].transport == KindFor(localRtc, roster[1..][j]);
              assert roster[j + 1] == roster[1..][j];
            }
          }
        } else {
          var peers' := peers[p.id := link.(bare := Some(room))];
          ReconcileLinks(peers', keys, roster[1..], room, localRtc);
          var r' := Reconcile(peers', keys, roster[1..], room, localRtc);
          assert r == r';
          forall id | id in r.peers && id !in peers
            ensures exists i :: 0 <= i < |roster| && roster[i].id == id && r.peers[id].transport == KindFor(localRtc, roster[i])
          {
            assert id in r'.peers && id !in peers';
            var j :| 0 <= j < |roster[1..]| && roster[1..][j].id == id && r'.peers[id].transport == KindFor(localRtc, roster[1..][j]);
            assert roster[j + 1] == roster[1..][j];
          }
        }
      } else {
        var peers' := peers[p.id := Link(KindFor(localRtc, p), room, None)];
        ReconcileLinks(peers', keys + [p.id], roster[1..], room, localRtc);
        var r' := Reconcile(peers', keys + [p.id], roster[1..], room, localRtc);
        assert r == r';
        forall id | id in r.peers && id !in peers
          ensures exists i :: 0 <= i < |roster| && roster[i].id == id && r.peers[id].transport == KindFor(localRtc, roster[i])
        {
          if id == p.id {
            assert roster[0].id == id && r'.peers[id].transport == peers'[id].transport;
          } else {
            assert id in r'.peers && id !in peers';
            var j :| 0 <= j < |roster[1..]| && roster[1..][j].id == id && r'.peers[id].transport == KindFor(localRtc, roster[1..][j]);
            assert roster[j + 1] == roster[1..][j];
          }
        }
      }
    }
  }

  /** Only WebRTC links that a roster entry names are refreshed. */
  lemma {:induction false} ReconcileRefreshes(peers: map<string, Link>, keys: seq<string>, roster: seq<RosterPeer>, room: Room, localRtc: bool)
    ensures var r := Reconcile(peers, keys, roster, room, localRtc);
      forall x :: x in r.refreshed ==> x in Ids(roster) && x in r.peers && r.peers[x].transport.Rtc?
    decreases |roster|
  {
    if roster != [] {
      var p := roster[0];
      var r := Reconcile(peers, keys, roster, room, localRtc);
      assert Ids(roster) == [p.id] + Ids(roster[1..]);
      if p.id in peers {
        var link := peers[p.id];
        if link.bare.Some? && link.bare.value.roomType == room.roomType {
          if link.transport.Rtc? {
            ReconcileRefreshes(peers, keys, roster[1..], room, localRtc);
            ReconcileLinks(peers, keys, roster[1..], room, localRtc);
            var r' := Reconcile(peers, keys, roster[1..], room, localRtc);
            assert r == r'.(refreshed := [p.id] + r'.refreshed);
          }
        } else {
          var peers' := peers[p.id := link.(bare := Some(room))];
          ReconcileRefreshes(peers', keys, roster[1..], room, localRtc);
          var r' := Reconcile(peers', keys, roster[1..], room, localRtc);
          assert r == r';
          forall x | x in r.refreshed ensures x in Ids(roster) && x in r.peers && r.peers[x].transport.Rtc? {
            assert x in r'.refreshed;
            assert x in Ids(roster[1..]);
          }
        }
      } else {
        var peers' := peers[p.id := Link(KindFor(localRtc, p), room, None)];
        ReconcileRefreshes(peers', keys + [p.id], roster[1..], room, localRtc);
        var r' := Reconcile(peers', keys + [p.id], roster[1..], room, localRtc);
        assert r == r';
        forall x | x in r.refreshed ensures x in Ids(roster) && x in r.peers && r.peers[x].transport.Rtc? {
          assert x in r'.refreshed;
          assert x in Ids(roster[1..]);
        }
      }
    }
  }

  /** A roster of new, distinct ids creates one link per entry, with the
      underscore-less fields absent, and refreshes nothing. */
  lemma {:induction false} FirstDelivery(peers: map<string, Link>, keys: seq<string>, roster: seq<RosterPeer>, room: Room, localRtc: bool)
    requires Distinct(Ids(roster))
    requires forall i :: 0 <= i < |roster| ==> roster[i].id !in peers
    ensures var r := Reconcile(peers, keys, roster, room, localRtc);
      && r.refreshed == [] && !r.aborted && r.keys == keys + Ids(roster)
      && (forall i :: 0 <= i < |roster| ==> roster[i].id in r.peers && r.peers[roster[i].id] == Link(KindFor(localRtc, roster[i]), room, None))
      && (forall id :: id in r.peers <==> id in peers || id in Ids(roster))
      && (forall id :: id in peers ==> r.peers[id] == peers[id])
    decreases |roster|
  {
    if roster != [] {
      var p := roster[0];
      var rest := roster[1..];
      assert Ids(roster) == [p.id] + Ids(rest);
      assert Ids(roster)[1..] == Ids(rest);
      var peers' := peers[p.id := Link(KindFor(localRtc, p), room, None)];
      forall i | 0 <= i < |rest| ensures rest[i].id !in peers' {
        assert Ids(rest)[i] in Ids(rest);
      }
      FirstDelivery(peers', keys + [p.id], rest, room, localRtc);
      var r := Reconcile(peers, keys, roster, room, localRtc);
      var r' := Reconcile(peers', keys + [p.id], rest, room, localRtc);
      assert r == r';
      assert keys + [p.id] + Ids(rest) == keys + Ids(roster);
      forall i | 0 <= i < |roster|
        ensures roster[i].id in r.peers && r.peers[roster[i].id] == Link(KindFor(localRtc, roster[i]), room, None)
      {
        if i > 0 {
          assert roster[i] == rest[i - 1];
        } else {
          assert p.id in peers';
        }
      }
      forall id ensures id in r.peers <==> id in peers || id in Ids(roster) {
        assert id in peers' <==> id in peers || id == p.id;
      }
    }
  }

  /** A roster whose ids are all known with the underscore-less room type
      absent or different (as right after their first delivery) only writes
      those fields: nothing is refreshed and no key is added. */
  lemma {:induction false} SecondDelivery(peers: map<string, Link>, keys: seq<string>, roster: seq<RosterPeer>, room: Room, localRtc: bool)
    requires Distinct(Ids(roster))
    requires forall i :: 0 <= i < |roster| ==> roster[i].id in peers && !(peers[roster[i].id].bare.Some? && peers[roster[i].id].bare.value.roomType == room.roomType)
    ensures var r := Reconcile(peers, keys, roster, room, localRtc);
      && r.refreshed == [] && !r.aborted && r.keys == keys
      && (forall id :: id in r.peers <==> id in peers)
      && (forall id :: id in peers ==> r.peers[id] == if id in Ids(roster) then peers[id].(bare := Some(room)) else peers[id])
    decreases |roster|
  {
    if roster != [] {
      var p := roster[0];
      var rest := roster[1..];
      assert Ids(roster) == [p.id] + Ids(rest);
      assert Ids(roster)[1..] == Ids(rest);
      var peers' := peers[p.id := peers[p.id].(bare := Some(room))];
      forall i | 0 <= i < |rest|
        ensures rest[i].id in peers' && !(peers'[rest[i].id].bare.Some? && peers'[rest[i].id].bare.value.roomType == room.roomType)
      {
        assert Ids(rest)[i] in Ids(rest);
        assert rest[i] == roster[i + 1];
      }
      SecondDelivery(peers', keys, rest, room, localRtc);
    }
  }

  /** A roster whose ids are all known with the message's underscore-less room
      type refreshes them in order and changes nothing, when all are WebRTC
      links, and stops at the first relayed one otherwise. */
  lemma {:induction false} ThirdDelivery(peers: map<string, Link>, keys: seq<string>, roster: seq<RosterPeer>, room: Room, localRtc: bool)
    requires forall i :: 0 <= i < |roster| ==> roster[i].id in peers && peers[roster[i].id].bare.Some? && peers[roster[i].id].bare.value.roomType == room.roomType
    ensures var r := Reconcile(peers, keys, roster, room, localRtc);
      && r.peers == peers && r.keys == keys
      && ((forall i :: 0 <= i < |roster| ==> peers[roster[i].id].transport.Rtc?) <==> !r.aborted)
      && (!r.aborted ==> r.refreshed == Ids(roster))
    decreases |roster|
  {
    if roster != [] {
      var rest := roster[1..];
      forall i | 0 <= i < |rest|
        ensures rest[i].id in peers && peers[rest[i].id].bare.Some? && peers[rest[i].id].bare.value.roomType == room.roomType
      {
        assert rest[i] == roster[i + 1];
      }
      ThirdDelivery(peers, keys, rest, room, localRtc);
      assert Ids(roster) == [roster[0].id] + Ids(rest);
      if forall i :: 0 <= i < |rest| ==> peers[rest[i].id].transport.Rtc? {
        if peers[roster[0].id].transport.Rtc? {
          forall i | 0 <= i < |roster| ensures peers[roster[i].id].transport.Rtc? {
            if i > 0 { assert roster[i] == rest[i - 1]; }
          }
        }
      } else {
        var i :| 0 <= i < |rest| && !peers[rest[i].id].transport.Rtc?;
        assert roster[i + 1] == rest[i];
      }
    }
  }

  /** The same roster of new peers, delivered three times: the first creates
      the links, the second only writes the underscore-less room fields and
      refreshes nothing, and only the third refreshes, every link when all are
      WebRTC links, while with a relayed link the third stops with an error. */
  lemma IdenticalRosterThrice(peers: map<string, Link>, keys: seq<string>, roster: seq<RosterPeer>, room: Room, localRtc: bool)
    requires Distinct(Ids(roster))
    requires forall i :: 0 <= i < |roster| ==> roster[i].id !in peers
    ensures var r1 := Reconcile(peers, keys, roster, room, localRtc);
      var r2 := Reconcile(r1.peers, r1.keys, roster, room, localRtc);
      var r3 := Reconcile(r2.peers, r2.keys, roster, room, localRtc);
      && r1.refreshed == [] && !r1.aborted
      && r2.refreshed == [] && !r2.aborted && r2.keys == r1.keys
      && r3.peers == r2.peers
      && ((forall i :: 0 <= i < |roster| ==> localRtc && roster[i].rtcSupported) <==> !r3.aborted)
      && (!r3.aborted ==> r3.refreshed == Ids(roster))
  {
    FirstDelivery(peers, keys, roster, room, localRtc);
    var r1 := Reconcile(peers, keys, roster, room, localRtc);
    SecondDelivery(r1.peers, r1.keys, roster, room, localRtc);
    var r2 := Reconcile(r1.peers, r1.keys, roster, room, localRtc);
    forall i | 0 <= i < |roster|
      ensures roster[i].id in r2.peers && r2.peers[roster[i].id] == Link(KindFor(localRtc, roster[i]), room, Some(room))
    {
      assert roster[i].id in Ids(roster);
    }
    ThirdDelivery(r2.peers, r2.keys, roster, room, localRtc);
  }

  /** The roster fields that removing peers changes. */
  datatype Snapshot = Snapshot(peers: map<string, Link>, keys: seq<string>, closed: seq<string>)

  /** `_onPeerLeft` on a snapshot. */
  function Leave(s: Snapshot, id: string): Snapshot
  {
    Snapshot(s.peers - {id}, Remove(s.keys, id), s.closed + Closing(s.peers, id))
  }

  /** A peer that has left once leaving again changes nothing: no second
      close, the key order as after the first removal. */
  lemma LeaveIdempotent(s: Snapshot, id: string)
    ensures Leave(Leave(s, id), id) == Leave(s, id)
  {
    RemoveIdempotent(s.keys, id);
    assert Closing(s.peers - {id}, id) == [];
  }

  /** An id the roster does not know leaves it as it is. */
  lemma LeaveUnknown(s: Snapshot, id: string)
    requires KeysMatch(s.peers, s.keys) && id !in s.peers
    ensures Leave(s, id) == s
  {
    RemoveAbsent(s.keys, id);
    assert s.peers - {id} == s.peers;
  }

  /** In a key order `pre + rest` the next id `rest[0]` occurs once. */
  lemma {:induction false} DistinctSplit(pre: seq<string>, rest: seq<string>)
    requires Distinct(pre + rest) && rest != []
    ensures rest[0] !in pre && rest[0] !in rest[1..] && Distinct(rest)
    decreases |pre|
  {
    if pre == [] {
      assert pre + rest == rest;
    } else {
      assert (pre + rest)[1..] == pre[1..] + rest;
      DistinctSplit(pre[1..], rest);
      assert rest[0] in pre[1..] + rest;
    }
  }

  /** The next id of the key order leaving takes its place out of the order. */
  lemma LeaveNext(s: Snapshot, pre: seq<string>, rest: seq<string>)
    requires KeysMatch(s.peers, s.keys) && s.keys == pre + rest && rest != []
    ensures var t := Leave(s, rest[0]); t.keys == pre + rest[1..] && KeysMatch(t.peers, t.keys)
  {
    var id := rest[0];
    DistinctSplit(pre, rest);
    assert s.keys == pre + [id] + rest[1..] by {
      assert rest == [id] + rest[1..];
    }
    RemoveAt(pre, id, rest[1..]);
    RemoveDistinct(s.keys, id);
  }

  /** One step of the `_onSecretRoomDeleted` loop: the next id leaves if its
      link has the deleted secret. */
  function PurgeStep(s: Snapshot, id: string, secret: string): Snapshot
  {
    if InRoom(s.peers, id, secret) then Leave(s, id) else s
  }

  /** The `_onSecretRoomDeleted` loop over the ids still to visit. */
  function PurgeEach(s: Snapshot, ids: seq<string>, secret: string): Snapshot
    decreases |ids|
  {
    if ids == [] then s else PurgeEach(PurgeStep(s, ids[0], secret), ids[1..], secret)
  }

  /** `t` is where the walk over `rest` ends when it starts from `s`, whose
      key order is `pre + rest`: of `rest` exactly the ids with the deleted
      secret are gone, their WebRTC links closed in order, and the other links
      are as they were. */
  ghost predicate PurgedFrom(s: Snapshot, pre: seq<string>, rest: seq<string>, secret: string, t: Snapshot)
  {
    && t.keys == pre + Outside(rest, s.peers, secret)
    && t.closed == s.closed + RtcIds(Inside(rest, s.peers, secret), s.peers)
    && (forall x :: x in t.peers <==> x in s.peers && !(x in rest && InRoom(s.peers, x, secret)))
    && (forall x :: x in t.peers ==> t.peers[x] == s.peers[x])
  }

  /** The walk goes on past an id it keeps. */
  lemma PurgedKeep(s: Snapshot, pre: seq<string>, rest: seq<string>, secret: string, t: Snapshot)
    requires rest != [] && !InRoom(s.peers, rest[0], secret)
    requires PurgedFrom(s, pre + [rest[0]], rest[1..], secret, t)
    ensures PurgedFrom(s, pre, rest, secret, t)
  {
    var id := rest[0];
    var r := rest[1..];
    assert Outside(rest, s.peers, secret) == [id] + Outside(r, s.peers, secret);
    assert pre + [id] + Outside(r, s.peers, secret) == pre + ([id] + Outside(r, s.peers, secret));
    assert Inside(rest, s.peers, secret) == Inside(r, s.peers, secret);
    assert forall x :: x in rest <==> x == id || x in r by {
      assert rest == [id] + r;
    }
  }

  /** Removing a link that `r` does not name leaves the WebRTC links among
      the ids of `r` with the deleted secret as they are. */
  lemma RtcInsideWithout(r: seq<string>, peers: map<string, Link>, id: string, secret: string)
    requires id !in r
    ensures RtcIds(Inside(r, peers - {id}, secret), peers - {id}) == RtcIds(Inside(r, peers, secret), peers)
  {
    SplitWithout(r, peers, id, secret);
    InsideOutsideMembers(r, peers, secret);
    RtcIdsWithout(Inside(r, peers, secret), peers, id);
  }

  /** The first id with the deleted secret is closed before the others. */
  lemma RtcInsideFront(rest: seq<string>, peers: map<string, Link>, secret: string)
    requires rest != [] && InRoom(peers, rest[0], secret)
    ensures RtcIds(Inside(rest, peers, secret), peers) == Closing(peers, rest[0]) + RtcIds(Inside(rest[1..], peers, secret), peers)
  {
    var inner := Inside(rest[1..], peers, secret);
    assert Inside(rest, peers, secret) == [rest[0]] + inner;
    assert ([rest[0]] + inner)[1..] == inner;
  }

  /** Removing the next id, one with the deleted secret, keeps the order of
      the ids after it that do not have the secret. */
  lemma OutsideDrop(rest: seq<string>, peers: map<string, Link>, secret: string)
    requires rest != [] && rest[0] !in rest[1..] && InRoom(peers, rest[0], secret)
    ensures Outside(rest[1..], peers - {rest[0]}, secret) == Outside(rest, peers, secret)
  {
    SplitWithout(rest[1..], peers, rest[0], secret);
    assert Outside(rest, peers, secret) == [] + Outside(rest[1..], peers, secret);
  }

  /** Removing the next id, one with the deleted secret, closes its WebRTC
      link before those of the ids after it that also have the secret. */
  lemma DropCloses(s: Snapshot, rest: seq<string>, secret: string)
    requires rest != [] && rest[0] !in rest[1..] && InRoom(s.peers, rest[0], secret)
    ensures var t := Leave(s, rest[0]);
      t.closed + RtcIds(Inside(rest[1..], t.peers, secret), t.peers) == s.closed + RtcIds(Inside(rest, s.peers, secret), s.peers)
  {
    var id := rest[0];
    var tail := RtcIds(Inside(rest[1..], s.peers, secret), s.peers);
    RtcInsideWithout(rest[1..], s.peers, id, secret);
    RtcInsideFront(rest, s.peers, secret);
    assert (s.closed + Closing(s.peers, id)) + tail == s.closed + (Closing(s.peers, id) + tail);
  }

  /** The walk goes on past an id it removes. */
  lemma PurgedDrop(s: Snapshot, pre: seq<string>, rest: seq<string>, secret: string, t: Snapshot)
    requires rest != [] && rest[0] !in rest[1..] && InRoom(s.peers, rest[0], secret)
    requires PurgedFrom(Leave(s, rest[0]), pre, rest[1..], secret, t)
    ensures PurgedFrom(s, pre, rest, secret, t)
  {
    OutsideDrop(rest, s.peers, secret);
    DropCloses(s, rest, secret);
    assert forall x :: x in rest <==> x == rest[0] || x in rest[1..] by {
      assert rest == [rest[0]] + rest[1..];
    }
  }

  /** The walk over `rest` from `s`, by induction on `rest`. */
  lemma {:induction false} PurgeEachFrom(s: Snapshot, pre: seq<string>, rest: seq<string>, secret: string)
    requires KeysMatch(s.peers, s.keys) && s.keys == pre + rest
    ensures PurgedFrom(s, pre, rest, secret, PurgeEach(s, rest, secret))
    decreases |rest|
  {
    if rest == [] {
      assert pre + [] == pre;
      assert s.closed + [] == s.closed;
    } else {
      var id := rest[0];
      var t := PurgeEach(s, rest, secret);
      if InRoom(s.peers, id, secret) {
        LeaveNext(s, pre, rest);
        DistinctSplit(pre, rest);
        PurgeEachFrom(Leave(s, id), pre, rest[1..], secret);
        PurgedDrop(s, pre, rest, secret, t);
      } else {
        assert s.keys == (pre + [id]) + rest[1..] by {
          assert rest == [id] + rest[1..];
        }
        PurgeEachFrom(s, pre + [id], rest[1..], secret);
        PurgedKeep(s, pre, rest, secret, t);
      }
    }
  }

  /** The whole walk removes exactly the links with the deleted secret, keeps
      the others and their order, and closes the removed WebRTC links in order. */
  lemma PurgeEachResult(s: Snapshot, secret: string)
    requires KeysMatch(s.peers, s.keys)
    ensures var t := PurgeEach(s, s.keys, secret);
      && (forall id :: id in t.peers <==> id in s.peers && s.peers[id].room.roomSecret != Some(secret))
      && (forall id :: id in t.peers ==> t.peers[id] == s.peers[id])
      && t.keys == Outside(s.keys, s.peers, secret)
      && t.closed == s.closed + RtcIds(Inside(s.keys, s.peers, secret), s.peers)
  {
    assert s.keys == [] + s.keys;
    PurgeEachFrom(s, [], s.keys, secret);
    assert [] + Outside(s.keys, s.peers, secret) == Outside(s.keys, s.peers, secret);
  }

  /** The `_clearPeers` loop: each id in turn leaves. */
  function LeaveEach(s: Snapshot, ids: seq<string>): Snapshot
    decreases |ids|
  {
    if ids == [] then s else LeaveEach(Leave(s, ids[0]), ids[1..])
  }

  /** The connection of the first id of the key order is closed before those
      of the rest. */
  lemma LeaveFirstCloses(s: Snapshot)
    requires KeysMatch(s.peers, s.keys) && s.keys != []
    ensures var t := Leave(s, s.keys[0]); t.closed + RtcIds(s.keys[1..], t.peers) == s.closed + RtcIds(s.keys, s.peers)
  {
    var id := s.keys[0];
    var rest := s.keys[1..];
    assert id !in rest;
    RtcIdsWithout(rest, s.peers, id);
    assert (s.closed + Closing(s.peers, id)) + RtcIds(rest, s.peers) == s.closed + (Closing(s.peers, id) + RtcIds(rest, s.peers));
  }

  /** `_clearPeers` as a whole: no link is left, and the WebRTC links are
      closed in key order. */
  lemma {:induction false} LeaveEachAll(s: Snapshot)
    requires KeysMatch(s.peers, s.keys)
    ensures LeaveEach(s, s.keys) == Snapshot(map[], [], s.closed + RtcIds(s.keys, s.peers))
    decreases |s.keys|
  {
    if s.keys == [] {
      assert s.peers == map[] by {
        assert forall id :: id !in s.peers;
      }
      assert s.closed + [] == s.closed;
    } else {
      var t := Leave(s, s.keys[0]);
      assert t.keys == s.keys[1..] && KeysMatch(t.peers, t.keys) by {
        assert s.keys == [] + s.keys;
        LeaveNext(s, [], s.keys);
        assert [] + s.keys[1..] == s.keys[1..];
      }
      LeaveFirstCloses(s);
      LeaveEachAll(Leave(s, s.keys[0]));
    }
  }

  class PeersManager {
    /** `window.isRtcSupported`. */
    const localRtc: bool
    var peers: map<string, Link>
    /** The key order of `peers`. */
    var keys: seq<string>
    /** The ids whose link was refreshed, oldest first. */
    var refreshed: seq<string>
    /** The ids whose WebRTC connection was closed on removal, oldest first. */
    var closed: seq<string>

    ghost predicate Valid()
      reads this
    {
      KeysMatch(peers, keys)
    }

    constructor (localRtc: bool)
      ensures Valid()
      ensures this.localRtc == localRtc && peers == map[] && keys == [] && refreshed == [] && closed == []
    {
      this.localRtc := localRtc;
      peers := map[];
      keys := [];
      refreshed := [];
      closed := [];
    }

    /** `_refreshOrCreatePeer`: an unknown id gets a new WebRTC link that
        waits for the peer's offer; a known one is re-homed. */
    method RefreshOrCreatePeer(id: string, room: Room)
      requires Valid()
      modifies this`peers, this`keys
      ensures Valid()
      ensures id in peers
      ensures id !in old(peers) ==> peers == old(peers)[id := Link(Rtc(false), room, None)] && keys == old(keys) + [id]
      ensures id in old(peers) ==> peers == old(peers)[id := Rehome(old(peers)[id], room)] && keys == old(keys)
    {
      if id !in peers {
        KeysMatchAdd(peers, keys, id, Link(Rtc(false), room, None));
        peers := peers[id := Link(Rtc(false), room, None)];
        keys := keys + [id];
      } else if peers[id].room.roomType != room.roomType {
        peers := peers[id := peers[id].(room := room)];
      }
    }

    /** `_onMessage`: make sure a link exists for the sender, then pass the
        signal on; `delivered` is false when the link is a relayed one, which
        has no handler for signals (the call fails after the roster update). */
    method OnMessage(sender: string, room: Room) returns (delivered: bool)
      requires Valid()
      modifies this`peers, this`keys
      ensures Valid()
      ensures sender !in old(peers) ==> peers == old(peers)[sender := Link(Rtc(false), room, None)] && keys == old(keys) + [sender]
      ensures sender in old(peers) ==> peers == old(peers)[sender := Rehome(old(peers)[sender], room)] && keys == old(keys)
      ensures sender in peers && (delivered <==> peers[sender].transport.Rtc?)
    {
      RefreshOrCreatePeer(sender, room);
      delivered := peers[sender].transport.Rtc?;
    }

    /** `_onPeerJoined`: handled like a signal from the joining peer. */
    method OnPeerJoined(id: string, room: Room) returns (delivered: bool)
      requires Valid()
      modifies this`peers, this`keys
      ensures Valid()
      ensures id !in old(peers) ==> peers == old(peers)[id := Link(Rtc(false), room, None)] && keys == old(keys) + [id]
      ensures id in old(peers) ==> peers == old(peers)[id := Rehome(old(peers)[id], room)] && keys == old(keys)
      ensures id in peers && (delivered <==> peers[id].transport.Rtc?)
    {
      delivered := OnMessage(id, room);
    }

    /** `_onPeers`: walk the roster entries in order; `aborted` reports the
        failed `refresh` call on a relayed link that ends the walk. */
    method OnPeers(roster: seq<RosterPeer>, room: Room) returns (aborted: bool)
      requires Valid()
      modifies this`peers, this`keys, this`refreshed
      ensures Valid()
      ensures var r := Reconcile(old(peers), old(keys), roster, room, localRtc);
        && peers == r.peers && keys == r.keys && refreshed == old(refreshed) + r.refreshed && aborted == r.aborted
    {
      ghost var acc: seq<string> := [];
      var i := 0;
      while i < |roster|
        invariant 0 <= i <= |roster|
        invariant Valid()
        invariant refreshed == old(refreshed) + acc
        invariant var r := Reconcile(peers, keys, roster[i..], room, localRtc);
          Reconcile(old(peers), old(keys), roster, room, localRtc) == r.(refreshed := acc + r.refreshed)
      {
        var p := roster[i];
        assert roster[i..][0] == p && roster[i..][1..] == roster[i + 1..];
        if p.id in peers {
          var link := peers[p.id];
          if link.bare.Some? && link.bare.value.roomType == room.roomType {
            if link.transport.Ws? {
              return true;
            }
            refreshed := refreshed + [p.id];
            acc := acc + [p.id];
          } else {
            peers := peers[p.id := link.(bare := Some(room))];
          }
        } else {
          KeysMatchAdd(peers, keys, p.id, Link(KindFor(localRtc, p), room, None));
          peers := peers[p.id := Link(KindFor(localRtc, p), room, None)];
          keys := keys + [p.id];
        }
        i := i + 1;
      }
      aborted := false;
    }

    /** `_onPeerLeft`: delete the entry, then close its WebRTC connection, if
        there was one; an unknown id changes nothing. */
    method OnPeerLeft(id: string)
      requires Valid()
      modifies this`peers, this`keys, this`closed
      ensures Valid()
      ensures peers == old(peers) - {id}
      ensures keys == Remove(old(keys), id)
      ensures closed == old(closed) + Closing(old(peers), id)
    {
      var link := if id in peers then Some(peers[id]) else None;
      RemoveDistinct(keys, id);
      peers := peers - {id};
      keys := Remove(keys, id);
      if link.None? || link.value.transport.Ws? {
        return;
      }
      closed := closed + [id];
    }

    /** `_clearPeers`: remove every peer, in key order. */
    method ClearPeers()
      requires Valid()
      modifies this`peers, this`keys, this`closed
      ensures Valid()
      ensures peers == map[] && keys == []
      ensures closed == old(closed) + RtcIds(old(keys), old(peers))
    {
      var rest := keys;
      ghost var start := Snapshot(peers, keys, closed);
      while rest != []
        invariant Valid()
        invariant LeaveEach(Snapshot(peers, keys, closed), rest) == LeaveEach(start, start.keys)
        decreases |rest|
      {
        OnPeerLeft(rest[0]);
        rest := rest[1..];
      }
      LeaveEachAll(start);
    }

    /** `_onSecretRoomDeleted`: remove, in key order, exactly the peers whose
        `_roomSecret` is the deleted room's secret. */
    method OnSecretRoomDeleted(secret: string)
      requires Valid()
      modifies this`peers, this`keys, this`closed
      ensures Valid()
      ensures forall id :: id in peers <==> id in old(peers) && old(peers)[id].room.roomSecret != Some(secret)
      ensures forall id :: id in peers ==> peers[id] == old(peers)[id]
      ensures keys == Outside(old(keys), old(peers), secret)
      ensures closed == old(closed) + RtcIds(Inside(old(keys), old(peers), secret), old(peers))
    {
      var rest := keys;
      ghost var start := Snapshot(peers, keys, closed);
      while rest != []
        invariant Valid()
        invariant Distinct(rest) && forall x :: x in rest ==> x in peers
        invariant PurgeEach(Snapshot(peers, keys, closed), rest, secret) == PurgeEach(start, start.keys, secret)
        decreases |rest|
      {
        var id := rest[0];
        assert id !in rest[1..];
        if peers[id].room.roomSecret == Some(secret) {
          OnPeerLeft(id);
        }
        rest := rest[1..];
      }
      PurgeEachResult(start, secret);
    }
  }

  /** The scenario of a roster `{A, direct transport supported}` in room
      `ip`/`s1` with local direct-transport support: the first delivery
      creates a caller WebRTC link, and of three identical deliveries only
      the third refreshes it. */
  method IdenticalRosterScenario() returns (link: Link, first: seq<string>, second: seq<string>, third: seq<string>)
    ensures link == Link(Rtc(true), Room("ip", Some("s1")), None)
    ensures first == [] && second == [] && third == ["A"]
  {
    var m := new PeersManager(true);
    var roster := [RosterPeer("A", true)];
    var room := Room("ip", Some("s1"));
    var aborted := m.OnPeers(roster, room);
    link := m.peers["A"];
    first := m.refreshed;
    aborted := m.OnPeers(roster, room);
    second := m.refreshed;
    aborted := m.OnPeers(roster, room);
    third := m.refreshed;
  }
}
