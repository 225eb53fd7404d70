/**
 * The presenter lock of a live room: server/src/classroom/ScreenShareManager.js over the mutable
 * peers of Peer.js and Room.js, with the host controls of ModerationControls.js that touch them.
 * Every method that moves the lock, a share or a role has exactly the effect that module
 * PresenterLock gives it, so the theorems about runs there hold for the live objects.
 *
 * Broadcasts, recordings and labels are not part of this model.
 */
module ScreenShare {
  import opened Basics
  import opened PresenterLock

  type RoomId = string

  datatype Slot = Camera | Microphone | Screen | ScreenAudio

  // ---------------------------------------------------------------- producers and peers

  class Producer {
    const id: ProducerId
    /** appData: whose producer it is, and which source it carries. */
    const peerId: PeerId
    const source: Slot
    var closed: bool

    constructor (id: ProducerId, peerId: PeerId, source: Slot)
      ensures this.id == id && this.peerId == peerId && this.source == source && !closed
    {
      this.id, this.peerId, this.source := id, peerId, source;
      closed := false;
    }

    method Close()
      modifies this
      ensures closed
    {
      closed := true;
    }
  }

  class Peer {
    const id: PeerId
    const userId: UserId
    var role: Role
    /** The occupied slots. */
    var producers: map<Slot, Producer>
    var closed: bool

    constructor (id: PeerId, userId: UserId, role: Role)
      ensures this.id == id && this.userId == userId && this.role == role && producers == map[] && !closed
    {
      this.id, this.userId, this.role := id, userId, role;
      producers := map[];
      closed := false;
    }

    /** Every slot holds an open producer of its source, made by this peer. */
    ghost predicate Slotted()
      reads this, producers.Values
    {
      forall s :: s in producers ==> producers[s].source == s && producers[s].peerId == id && !producers[s].closed
    }

    predicate IsHost()
      reads this
    {
      role == Host
    }

    predicate CanModerate()
      reads this
    {
      role == Host || role == Cohost
    }

    /** isSharingScreen */
    predicate Sharing()
      reads this, if Screen in producers then {producers[Screen]} else {}
    {
      Screen in producers && !producers[Screen].closed
    }

    ghost function View(): PeerView
      reads this
    {
      PeerView(userId, role, if Screen in producers then Some(producers[Screen].id) else None)
    }

    lemma SharesIffSeen()
      requires Slotted()
      ensures Sharing() <==> View().screen.Some?
    {
    }

    /** Replacing a slot closes the producer that was in it. */
    method AddProducer(source: Slot, producer: Producer)
      requires Slotted() && producer.source == source && producer.peerId == id && producer !in producers.Values
      requires !producer.closed
      modifies this`producers, producers.Values
      ensures producers == old(producers)[source := producer] && Slotted()
      ensures source in old(producers) ==> old(producers[source]).closed
    {
      if source in producers {
        producers[source].Close();
      }
      producers := producers[source := producer];
    }

    /** The close observer of a producer: empties the slot if it still holds that producer. */
    method ProducerClosed(source: Slot, producer: Producer)
      modifies this`producers
      ensures producers == if source in old(producers) && old(producers)[source] == producer
                           then old(producers) - {source} else old(producers)
    {
      if source in producers && producers[source] == producer {
        producers := producers - {source};
      }
    }

    method CloseProducer(source: Slot) returns (was: bool)
      requires Slotted()
      modifies this`producers, producers.Values
      ensures was == (source in old(producers)) && producers == old(producers) - {source} && Slotted()
      ensures source in old(producers) ==> old(producers[source]).closed
    {
      if source !in producers {
        return false;
      }
      producers[source].Close();
      producers := producers - {source};
      return true;
    }

    /** What ends a share: both of its producers are closed and both slots emptied. */
    method CloseScreenShare() returns (was: bool)
      requires Slotted()
      modifies this`producers, producers.Values
      ensures was == (Screen in old(producers)) && producers == old(producers) - {Screen, ScreenAudio} && Slotted()
      ensures forall s :: s in old(producers) && s in {Screen, ScreenAudio} ==> old(producers[s]).closed
    {
      was := CloseProducer(Screen);
      var _ := CloseProducer(ScreenAudio);
    }

    /** Closing the transports closes every producer on them, and the observers empty the slots. */
    method CloseTransports()
      requires Slotted()
      modifies this`producers, producers.Values
      ensures producers == map[] && forall p :: p in old(producers.Values) ==> p.closed
    {
      var open := producers.Values;
      forall p | p in open {
        p.closed := true;
      }
      producers := map[];
    }

    method Close()
      requires Slotted()
      modifies this`producers, this`closed, producers.Values
      ensures closed && Slotted()
      ensures !old(closed) ==> producers == map[] && forall p :: p in old(producers.Values) ==> p.closed
      ensures old(closed) ==> producers == old(producers)
    {
      if closed {
        return;
      }
      closed := true;
      CloseTransports();
    }
  }

  // ---------------------------------------------------------------- rooms

  class Room {
    const id: RoomId
    var peers: map<PeerId, Peer>
    var learnersMayShare: bool
    var hostUserId: UserId

    constructor (id: RoomId, learnersMayShare: bool, hostUserId: UserId)
      ensures this.id == id && peers == map[] && this.learnersMayShare == learnersMayShare
    {
      this.id, this.learnersMayShare, this.hostUserId := id, learnersMayShare, hostUserId;
      peers := map[];
    }

    ghost function Producers(): set<Producer>
      reads this, peers.Values
    {
      set p, s | p in peers && s in peers[p].producers :: peers[p].producers[s]
    }

    /** What the lock's rules can see of the peers. */
    ghost function Views(): map<PeerId, PeerView>
      reads this, peers.Values
    {
      map p | p in peers :: peers[p].View()
    }

    /** When no other peer changed, the views change at one place. */
    twostate lemma OnlyOneChanged(p: PeerId)
      requires peers == old(peers)
      requires forall q :: q in peers && q != p ==> peers[q].View() == old(peers[q].View())
      ensures Views() == if p in peers then old(Views())[p := peers[p].View()] else old(Views())
      ensures p in old(Views()) <==> p in peers
      ensures p in peers ==> old(Views())[p] == old(peers[p].View())
    {
    }

    /** Peers are filed under their ids and keep their own producers. */
    ghost predicate Valid()
      reads this, peers.Values, Producers()
    {
      forall p :: p in peers ==> peers[p].id == p && peers[p].Slotted()
    }

    /** addPeer, with the fresh peer of a connection. */
    method AddPeer(peer: Peer)
      requires Valid() && peer.id !in peers && peer.producers == map[]
      modifies this`peers
      ensures Valid() && peers == old(peers)[peer.id := peer]
      ensures Views() == old(Views())[peer.id := PeerView(peer.userId, peer.role, None)]
    {
      peers := peers[peer.id := peer];
    }

    /** The peer is in this room. */
    ghost predicate Holds(peer: Peer)
      reads this
    {
      peer.id in peers && peers[peer.id] == peer
    }

    /** The peer and its producers. */
    ghost function Around(p: PeerId): set<object>
      reads this, peers.Values
    {
      if p in peers then {peers[p]} + peers[p].producers.Values else {}
    }
  }

  // ---------------------------------------------------------------- the lock

  class ScreenShareManager {
    var locks: map<RoomId, Lock>

    constructor ()
      ensures locks == map[]
    {
      locks := map[];
    }

    ghost function View(room: Room): Session
      reads this, room, room.peers.Values
    {
      Session(room.Views(), if room.id in locks then Some(locks[room.id]) else None, room.learnersMayShare)
    }

    /** The lock of a room, dropping a stale one. */
    method ActiveFor(roomId: RoomId, now: int) returns (held: Option<Lock>)
      modifies this
      ensures held == if roomId in old(locks) && !Stale(old(locks)[roomId], now) then Some(old(locks)[roomId]) else None
      ensures locks == if held.None? then old(locks) - {roomId} else old(locks)
    {
      if roomId !in locks {
        return None;
      }
      if Stale(locks[roomId], now) {
        locks := locks - {roomId};
        return None;
      }
      return Some(locks[roomId]);
    }

    /** Ending one peer's share silences that peer and no other. */
    method EndShare(room: Room, peerId: PeerId)
      requires room.Valid()
      modifies room.Around(peerId)
      ensures room.Valid() && room.Views() == Silenced(old(room.Views()), peerId)
      ensures room.Around(peerId) <= old(room.Around(peerId))
    {
      hide Room.Views;
      if peerId in room.peers {
        var _ := room.peers[peerId].CloseScreenShare();
      }
      room.OnlyOneChanged(peerId);
    }

    method Release(room: Room, peerId: PeerId) returns (released: bool)
      requires room.Valid()
      modifies this, room.Around(peerId)
      ensures room.Valid()
      ensures released == (room.id in old(locks) && old(locks)[room.id].peerId == peerId)
      ensures locks == if released then old(locks) - {room.id} else old(locks)
      ensures View(room) == Released(old(View(room)), peerId)
      ensures !released ==> forall o :: o in old(room.Around(peerId)) ==> unchanged(o)
      ensures room.Around(peerId) <= old(room.Around(peerId))
    {
      if room.id !in locks || locks[room.id].peerId != peerId {
        return false;
      }
      locks := locks - {room.id};
      EndShare(room, peerId);
      return true;
    }

    /** Whoever loses the lock to a peer that takes over: the holder and its producers. */
    ghost function TakenFrom(room: Room, peer: Peer, now: int): set<object>
      reads this, room, room.peers.Values
    {
      if HeldByOther(View(room), peer.id, now) then room.Around(locks[room.id].peerId) else {}
    }

    /** A new lock is pending: it knows no producer. */
    method Grant(room: Room, peer: Peer, now: int)
      requires room.Valid()
      modifies this
      ensures room.Valid()
      ensures View(room) == old(View(room)).(lock := Some(Lock(peer.id, peer.userId, now, None)))
    {
      hide Room.Views;
      locks := locks[room.id := Lock(peer.id, peer.userId, now, None)];
    }

    /** The picker is about to open. */
    method Acquire(room: Room, peer: Peer, now: int) returns (result: AcquireResult)
      requires room.Valid() && room.Holds(peer)
      modifies this, TakenFrom(room, peer, now)
      ensures room.Valid()
      ensures result == AcquireResultOf(old(View(room)), peer.id, now)
      ensures View(room) == Acquired(old(View(room)), peer.id, now)
    {
      assert peer.id in room.Views() && room.Views()[peer.id] == peer.View();
      hide Room.Views;
      if !peer.CanModerate() && !room.learnersMayShare {
        return Forbidden;
      }
      var held := ActiveFor(room.id, now);
      if held.Some? && held.value.peerId != peer.id {
        if !peer.IsHost() {
          return Taken(held.value.peerId);
        }
        var _ := Release(room, held.value.peerId);
      }
      Grant(room, peer, now);
      return Granted;
    }

    /** Confirms the holder's lock for its new producer, and closes a producer of anybody else. */
    method AttachProducer(room: Room, peer: Peer, producer: Producer) returns (ok: bool)
      requires room.Valid() && room.Holds(peer)
      requires Screen in peer.producers && peer.producers[Screen] == producer
      modifies this, producer, peer`producers
      ensures room.Valid()
      ensures ok == Holds(old(View(room)), peer.id) && producer.closed == !ok
      ensures peer.producers == if ok then old(peer.producers) else old(peer.producers) - {Screen}
      ensures View(room) == Produced(old(View(room)), peer.id, producer.id)
    {
      hide Room.Views;
      if room.id !in locks || locks[room.id].peerId != peer.id {
        producer.Close();
        peer.ProducerClosed(Screen, producer);
        room.OnlyOneChanged(peer.id);
        return false;
      }
      locks := locks[room.id := locks[room.id].(producerId := Some(producer.id))];
      room.OnlyOneChanged(peer.id);
      return true;
    }

    /** addProducer seen from the room. */
    method Occupy(room: Room, peer: Peer, source: Slot, producer: Producer)
      requires room.Valid() && room.Holds(peer)
      requires producer.source == source && producer.peerId == peer.id && producer !in peer.producers.Values
      requires !producer.closed
      modifies peer`producers, peer.producers.Values
      ensures room.Valid() && peer.producers == old(peer.producers)[source := producer]
      ensures peer.id in old(room.Views())
      ensures room.Views() == if source != Screen then old(room.Views())
                              else old(room.Views())[peer.id := old(room.Views())[peer.id].(screen := Some(producer.id))]
    {
      hide Room.Views;
      peer.AddProducer(source, producer);
      room.OnlyOneChanged(peer.id);
    }

    /**
     * The tail of the produce handler, which runs without interruption: put the new producer in
     * its slot and, for a screen, attach it. A share without the lock never becomes live.
     */
    method Produce(room: Room, peer: Peer, source: Slot, producer: Producer) returns (ok: bool)
      requires room.Valid() && room.Holds(peer)
      requires producer.source == source && producer.peerId == peer.id && producer !in peer.producers.Values
      requires !producer.closed
      modifies this, peer`producers, peer.producers.Values, producer
      ensures room.Valid()
      ensures ok == (source != Screen || Holds(old(View(room)), peer.id))
      ensures View(room) == if source == Screen then Produced(old(View(room)), peer.id, producer.id)
                            else old(View(room))
    {
      hide Room.Views, Room.Valid;
      Occupy(room, peer, source, producer);
      if source == Screen {
        ok := AttachProducer(room, peer, producer);
      } else {
        ok := true;
      }
    }

    /** A departing holder gives up the lock together with its share. */
    method ReleaseForPeer(room: Room, peerId: PeerId)
      requires room.Valid()
      modifies this, room.Around(peerId)
      ensures room.Valid()
      ensures View(room) == Released(old(View(room)), peerId)
      ensures room.Around(peerId) <= old(room.Around(peerId))
    {
      if room.id in locks && locks[room.id].peerId == peerId {
        var _ := Release(room, peerId);
      }
    }

    /** Room.removePeer: the peer is closed, then struck off. */
    method RemovePeer(room: Room, peerId: PeerId)
      requires room.Valid()
      modifies room`peers, room.Around(peerId)
      ensures room.Valid() && room.peers == old(room.peers) - {peerId}
      ensures room.Views() == old(room.Views()) - {peerId}
      ensures peerId in old(room.peers) ==> old(room.peers)[peerId].closed
    {
      if peerId !in room.peers {
        return;
      }
      room.peers[peerId].Close();
      room.peers := room.peers - {peerId};
    }

    /** The teardown of a connection: the lock goes first. */
    method Leave(room: Room, peerId: PeerId)
      requires room.Valid()
      modifies this, room`peers, room.Around(peerId)
      ensures room.Valid() && room.peers == old(room.peers) - {peerId}
      ensures View(room) == Departed(old(View(room)), peerId)
      ensures peerId in old(room.peers) ==> old(room.peers)[peerId].closed
    {
      hide Room.Views;
      ReleaseForPeer(room, peerId);
      RemovePeer(room, peerId);
    }

    /** A peer's media is rebuilt or fails: its share dies, the lock stays. */
    method LoseTransports(room: Room, peer: Peer)
      requires room.Valid() && room.Holds(peer)
      modifies peer`producers, peer.producers.Values
      ensures room.Valid()
      ensures View(room) == Effect(old(View(room)), 0, ProducerDies(peer.id))
    {
      hide Room.Views;
      peer.CloseTransports();
      room.OnlyOneChanged(peer.id);
    }

    // -------------------------------------------------------------- host controls

    /** stopScreenShare: refused unless the actor moderates. */
    method StopScreenShare(room: Room, actor: Peer, peerId: PeerId) returns (result: Option<bool>)
      requires room.Valid()
      modifies this, room.Around(peerId)
      ensures room.Valid()
      ensures result == if old(actor.CanModerate()) then Some(Holds(old(View(room)), peerId)) else None
      ensures View(room) == if result.Some? then Released(old(View(room)), peerId) else old(View(room))
    {
      if !actor.CanModerate() {
        return None;
      }
      var released := Release(room, peerId);
      return Some(released);
    }

    /** remove: the lock goes before the peer, and the host cannot be removed. */
    method Remove(room: Room, actor: Peer, peerId: PeerId) returns (result: RemoveResult)
      requires room.Valid()
      modifies this, room`peers, room.Around(peerId)
      ensures room.Valid()
      ensures result == RemoveResultOf(old(View(room)), old(actor.CanModerate()), peerId)
      ensures View(room) == if result == Removed then Departed(old(View(room)), peerId) else old(View(room))
      ensures result == Removed ==> old(room.peers)[peerId].closed && room.peers == old(room.peers) - {peerId}
    {
      if !actor.CanModerate() {
        return NotRoomHost;
      }
      if peerId !in room.peers {
        return NoSuchPeer;
      }
      if room.peers[peerId].IsHost() {
        return HostStays;
      }
      Leave(room, peerId);
      return Removed;
    }
  }

  // ---------------------------------------------------------------- roles

  method PutRole(room: Room, peer: Peer, role: Role)
    requires room.Valid() && room.Holds(peer)
    modifies peer`role
    ensures room.Valid() && peer.role == role && room.Views() == WithRole(old(room.Views()), peer.id, role)
  {
    peer.role := role;
    room.OnlyOneChanged(peer.id);
  }

  /** promote and demote: nothing for the host, and no other peer changes. */
  method SetRole(room: Room, actor: Peer, peerId: PeerId, role: Role) returns (result: Option<bool>)
    requires room.Valid() && role != Host
    modifies set p | p in room.peers.Values && p.id == peerId :: p`role
    ensures result.None? <==> !old(actor.CanModerate())
    ensures result == Some(true) <==>
              old(actor.CanModerate()) && peerId in room.peers && old(room.peers[peerId].role) != Host
    ensures room.Views() == if result == Some(true) then WithRole(old(room.Views()), peerId, role)
                            else old(room.Views())
  {
    if !actor.CanModerate() {
      return None;
    }
    if peerId !in room.peers || room.peers[peerId].IsHost() {
      return Some(false);
    }
    PutRole(room, room.peers[peerId], role);
    return Some(true);
  }

  /** transferHost: the actor steps down before the target steps up, also when they are the same peer. */
  method TransferHost(room: Room, actor: Peer, peerId: PeerId) returns (result: Option<bool>)
    requires room.Valid() && room.Holds(actor)
    modifies room`hostUserId, actor`role, set p | p in room.peers.Values && p.id == peerId :: p`role
    ensures result.None? <==> old(actor.role) != Host
    ensures result == Some(true) <==> old(actor.role) == Host && peerId in room.peers
    ensures result == Some(true) ==> room.hostUserId == room.peers[peerId].userId
    ensures room.Views() == if result == Some(true) then WithRole(WithRole(old(room.Views()), actor.id, Cohost), peerId, Host)
                            else old(room.Views())
  {
    if !actor.IsHost() {
      return None;
    }
    if peerId !in room.peers {
      return Some(false);
    }
    hide Room.Views, Room.Valid;
    PutRole(room, actor, Cohost);
    PutRole(room, room.peers[peerId], Host);
    room.hostUserId := room.peers[peerId].userId;
    return Some(true);
  }
}
