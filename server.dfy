/**
 * The room registry of the game server: the map from room code to room, and
 * one method per socket event handler (createRoom, joinRoom, startRound,
 * setCategory, disconnect with its deferred cleanup, leaveRoom,
 * listCategories).
 *
 * What a handler receives from outside is a parameter: the caller's socket
 * id, the room code that makeRoomCode draws, the token uuidv4 generates, the
 * values Math.random returns, and the order in which `for (const code in
 * rooms)` visits the codes. A handler returns its acknowledgement and the
 * messages it emits, in emission order.
 */
module Server {

  import opened Options
  import opened Picker
  import opened Rooms

  /** The acknowledgement a handler passes to its callback. */
  datatype Ack =
    | Created(code: string, sessionId: string)             // {ok: true, code, sessionId}
    | Joined(code: string, sessionId: string, reconnected: bool)
    | Done                                                  // {ok: true}
    | Failed(error: string)                                 // {ok: false, error}
    | Refused                                               // {ok: false}
    | Threw                                                 // a TypeError ends the handler before any reply

  /** No room listed in codes has a player connected through socket s. */
  predicate NoRoomWith(rooms: map<string, Room>, codes: seq<string>, s: string) {
    forall m :: 0 <= m < |codes| && codes[m] in rooms ==> SocketIndex(rooms[codes[m]].players, s) < 0
  }

  /**
   * The code of the first room, in the enumeration order, with a player
   * connected through socket s.
   */
  function FirstRoomWith(rooms: map<string, Room>, order: seq<string>, s: string): (c: Option<string>)
    ensures c.Some? ==> c.value in rooms && 0 <= SocketIndex(rooms[c.value].players, s)
    ensures c.Some? ==> exists n :: 0 <= n < |order| && order[n] == c.value && NoRoomWith(rooms, order[..n], s)
    ensures c.None? ==> NoRoomWith(rooms, order, s)
    decreases |order|
  {
    if |order| == 0 then None
    else if order[0] in rooms && 0 <= SocketIndex(rooms[order[0]].players, s) then
      assert NoRoomWith(rooms, order[..0], s);
      Some(order[0])
    else
      var c := FirstRoomWith(rooms, order[1..], s);
      if c.Some? then
        ghost var n :| 0 <= n < |order[1..]| && order[1..][n] == c.value && NoRoomWith(rooms, order[1..][..n], s);
        assert order[..n + 1] == [order[0]] + order[1..][..n];
        assert order[n + 1] == c.value && NoRoomWith(rooms, order[..n + 1], s);
        c
      else
        assert order == [order[0]] + order[1..];
        c
  }

  class Registry {

    /** The word bank, category to words, loaded once at start. */
    const words: WordBank
    /** Object.keys(words): the bank's categories in their enumeration order. */
    const categories: seq<string>
    var rooms: map<string, Room>

    ghost predicate Valid()
      reads this
    {
      && (forall c :: c in categories <==> c in words)
      && Distinct(categories)
      && forall code :: code in rooms ==> RoomValid(rooms[code], words)
    }

    constructor(words: WordBank, categories: seq<string>)
      requires forall c :: c in categories <==> c in words
      requires Distinct(categories)
      ensures Valid()
      ensures this.words == words && this.categories == categories && rooms == map[]
    {
      this.words := words;
      this.categories := categories;
      rooms := map[];
    }

    /**
     * createRoom: stores a new room under code, replacing any room that
     * already has that code, with the caller as its only player and host.
     */
    method CreateRoom(socketId: string, name: string, category: string, code: string, sessionId: string)
      returns (ack: Ack, emits: seq<Emit>)
      requires Valid() && sessionId != ""
      modifies this
      ensures Valid()
      ensures rooms == old(rooms)[code := NewRoom(socketId, name, category, sessionId)]
      ensures ack == Created(code, sessionId)
      ensures emits == [ToSocket(socketId, RoomCreated(code, sessionId)),
                        ToRoom(code, UpdatePlayers([OrDefault(name, DefaultName)]))]
    {
      rooms := rooms[code := Room([], sessionId, OrDefault(category, DefaultCategory), map[])];
      var player := Player(sessionId, Some(socketId), OrDefault(name, DefaultName), sessionId);
      rooms := rooms[code := rooms[code].(players := rooms[code].players + [player])];
      assert rooms[code].players == [player];
      NewRoomOutcome(words, socketId, name, category, sessionId);
      assert Names([player]) == [player.name];
      emits := [ToSocket(socketId, RoomCreated(code, sessionId)), ToRoom(code, UpdatePlayers(Names(rooms[code].players)))];
      ack := Created(code, sessionId);
    }

    /**
     * joinRoom: an unknown code is refused with "Room not found"; a presented
     * session held by a player reconnects that player; anything else appends
     * a new player.
     */
    method JoinRoom(socketId: string, name: string, code: string, sessionId: string, freshId: string)
      returns (ack: Ack, emits: seq<Emit>)
      requires Valid()
      requires freshId != "" && (code in rooms ==> SessionIndex(rooms[code].players, freshId) < 0)
      modifies this
      ensures Valid()
      ensures code !in old(rooms) ==> rooms == old(rooms) && ack == Failed("Room not found") && emits == []
      ensures code in old(rooms) ==>
        var reconnect := 0 <= SessionIndex(old(rooms)[code].players, sessionId);
        && rooms == old(rooms)[code := Rejoin(old(rooms)[code], socketId, name, sessionId, freshId)]
        && ack == Joined(code, if reconnect then sessionId else JoinedSession(sessionId, freshId), reconnect)
        && emits == (if reconnect then [ToSocket(socketId, Reconnected(code, sessionId))] else [])
                    + [ToRoom(code, UpdatePlayers(Names(rooms[code].players)))]
    {
      if code !in rooms {
        return Failed("Room not found"), [];
      }
      var room := rooms[code];
      RejoinKeepsRoomValid(words, room, socketId, name, sessionId, freshId);
      var i := SessionIndex(room.players, sessionId);
      if 0 <= i {
        var existing := room.players[i];
        existing := existing.(socketId := Some(socketId));
        existing := existing.(name := OrDefault(name, existing.name));
        rooms := rooms[code := room.(players := room.players[i := existing])];
        emits := [ToSocket(socketId, Reconnected(code, sessionId)), ToRoom(code, UpdatePlayers(Names(rooms[code].players)))];
        return Joined(code, sessionId, true), emits;
      }
      var sid := OrDefault(sessionId, freshId);
      var player := Player(sid, Some(socketId), OrDefault(name, DefaultName), sid);
      rooms := rooms[code := room.(players := room.players + [player])];
      emits := [ToRoom(code, UpdatePlayers(Names(rooms[code].players)))];
      ack := Joined(code, sid, false);
    }

    /**
     * startRound: an unknown code is refused with "room not found". Otherwise
     * a word is picked from the room's category, which advances its history
     * even when the room then turns out to have no players ("no players").
     * A category missing from the word bank makes the word lookup throw, with
     * nothing changed. With players, the one at the drawn position is the
     * impostor and every connected player is sent their role.
     */
    method StartRound(code: string, wordRand: real, impostorRand: real)
      returns (ack: Ack, emits: seq<Emit>)
      requires Valid()
      requires 0.0 <= wordRand < 1.0 && 0.0 <= impostorRand < 1.0
      modifies this
      ensures Valid()
      ensures code !in old(rooms) ==> rooms == old(rooms) && ack == Failed("room not found") && emits == []
      ensures code in old(rooms) && old(rooms)[code].category !in words ==>
        rooms == old(rooms) && ack == Threw && emits == []
      ensures code in old(rooms) && old(rooms)[code].category in words ==>
        var r := old(rooms)[code];
        var p := Pick(words, r.category, r.usedWords, wordRand);
        && rooms == old(rooms)[code := r.(usedWords := p.usedWords)]
        && (|r.players| == 0 ==> ack == Failed("no players") && emits == [])
        && (|r.players| > 0 ==>
              && ack == Done
              && emits == RoundDeliveries(r.players, r.players[RandIndex(impostorRand, |r.players|)].sessionId,
                                          WordAt(words[r.category], p.index)))
    {
      if code !in rooms {
        return Failed("room not found"), [];
      }
      var room := rooms[code];
      var idx, usedWords := PickWordIndex(words, room.category, room.usedWords, wordRand);
      PickKeepsHistoriesValid(words, room.category, room.usedWords, wordRand);
      if room.category !in words {
        PickOutcome(words, room.category, room.usedWords, wordRand);
        return Threw, [];
      }
      room := room.(usedWords := usedWords);
      rooms := rooms[code := room];
      var word := WordAt(words[room.category], idx);
      var players := room.players;
      if |players| == 0 {
        return Failed("no players"), [];
      }
      var impostor := players[RandIndex(impostorRand, |players|)];
      emits := DeliverRound(players, impostor.sessionId, word);
      ack := Done;
    }

    /**
     * setCategory: refused with "room not found" or "category not found"
     * (nothing changes); otherwise the room switches category and keeps any
     * history it already has for it.
     */
    method SetCategory(code: string, category: string) returns (ack: Ack, emits: seq<Emit>)
      requires Valid()
      modifies this
      ensures Valid()
      ensures code !in old(rooms) ==> rooms == old(rooms) && ack == Failed("room not found") && emits == []
      ensures code in old(rooms) && category !in words ==>
        rooms == old(rooms) && ack == Failed("category not found") && emits == []
      ensures code in old(rooms) && category in words ==>
        && rooms == old(rooms)[code := WithCategory(old(rooms)[code], category)]
        && ack == Done
        && emits == [ToRoom(code, CategoryChanged(category))]
    {
      if code !in rooms {
        return Failed("room not found"), [];
      }
      var room := rooms[code];
      if category !in words {
        return Failed("category not found"), [];
      }
      room := room.(category := category);
      if category !in room.usedWords {
        room := room.(usedWords := room.usedWords[category := []]);
      }
      WithCategoryOutcome(words, rooms[code], category);
      rooms := rooms[code := room];
      ack, emits := Done, [ToRoom(code, CategoryChanged(category))];
    }

    /**
     * disconnect: visits the rooms in the order given and, in the first one
     * with a player connected through the socket, marks the first such player
     * offline, tells the room, and returns that code for the cleanup check
     * scheduled five minutes later. Nobody is removed.
     */
    method Disconnect(socketId: string, order: seq<string>) returns (emits: seq<Emit>, cleanup: Option<string>)
      requires Valid()
      requires forall c :: c in order <==> c in rooms
      modifies this
      ensures Valid()
      ensures cleanup == FirstRoomWith(old(rooms), order, socketId)
      ensures cleanup.None? ==> rooms == old(rooms) && emits == []
      ensures cleanup.Some? ==>
        var c := cleanup.value;
        && rooms == old(rooms)[c := MarkedOffline(old(rooms)[c], SocketIndex(old(rooms)[c].players, socketId))]
        && emits == [ToRoom(c, UpdatePlayers(ShownNames(rooms[c].players)))]
    {
      var n := 0;
      while n < |order|
        invariant 0 <= n <= |order|
        invariant FirstRoomWith(rooms, order, socketId) == FirstRoomWith(rooms, order[n..], socketId)
      {
        var code := order[n];
        var room := rooms[code];
        var idx := SocketIndex(room.players, socketId);
        if 0 <= idx {
          MarkedOfflineOutcome(words, room, idx);
          room := room.(players := room.players[idx := room.players[idx].(socketId := None)]);
          rooms := rooms[code := room];
          emits := [ToRoom(code, UpdatePlayers(ShownNames(room.players)))];
          cleanup := Some(code);
          return;
        }
        assert order[n..][1..] == order[n + 1..];
        n := n + 1;
      }
      emits, cleanup := [], None;
    }

    /**
     * The deferred check disconnect schedules: it deletes the room under code
     * when it still exists and no player in it is connected, which includes
     * a room with no players at all.
     */
    method CleanupCheck(code: string) returns (deleted: bool)
      requires Valid()
      modifies this
      ensures Valid()
      ensures deleted <==> code in old(rooms) && AllOffline(old(rooms)[code].players)
      ensures rooms == if deleted then old(rooms) - {code} else old(rooms)
    {
      deleted := false;
      if code in rooms {
        var r := rooms[code];
        if AllOffline(r.players) {
          rooms := rooms - {code};
          deleted := true;
        }
      }
    }

    /**
     * leaveRoom: an unknown code gets {ok: false}; otherwise the player
     * holding the session, if any, is removed and the room told. The room
     * itself is never deleted here, and its host is never changed.
     */
    method LeaveRoom(code: string, sessionId: string) returns (ack: Ack, emits: seq<Emit>)
      requires Valid()
      modifies this
      ensures Valid()
      ensures code !in old(rooms) ==> rooms == old(rooms) && ack == Refused && emits == []
      ensures code in old(rooms) ==>
        && rooms == old(rooms)[code := Left(old(rooms)[code], sessionId)]
        && ack == Done
        && emits == (if 0 <= SessionIndex(old(rooms)[code].players, sessionId)
                     then [ToRoom(code, UpdatePlayers(Names(rooms[code].players)))] else [])
    {
      if code !in rooms {
        return Refused, [];
      }
      var room := rooms[code];
      LeftOutcome(words, room, sessionId);
      var idx := SessionIndex(room.players, sessionId);
      emits := [];
      if 0 <= idx {
        room := room.(players := room.players[..idx] + room.players[idx + 1..]);
        rooms := rooms[code := room];
        emits := [ToRoom(code, UpdatePlayers(Names(room.players)))];
      }
      ack := Done;
    }

    /** listCategories: the bank's category names, each once. */
    method ListCategories() returns (names: seq<string>)
      requires Valid()
      ensures names == categories
      ensures forall c :: c in names <==> c in words
      ensures Distinct(names)
    {
      names := categories;
    }
  }
}
