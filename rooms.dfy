/**
 * Rooms and their players, as the game server stores them in its registry,
 * with the changes each handler makes to one room and the private messages a
 * round sends to the players.
 *
 * A player's id and sessionId are the same token. A player whose socketId is
 * None (null) is offline but stays a member of the room. The empty string
 * stands for every JavaScript value that is false in a test (undefined, null,
 * ""): names, categories and session ids that a request leaves out.
 */
module Rooms {

  import opened Options
  import opened Picker

  datatype Player = Player(id: string, socketId: Option<string>, name: string, sessionId: string)

  /** host is the sessionId of the player who created the room. */
  datatype Room = Room(players: seq<Player>, host: string, category: string, usedWords: UsedWords)

  datatype Role = Impostor | Crew

  /** The payloads the server emits. */
  datatype Message =
    | RoomCreated(code: string, sessionId: string)
    | Reconnected(code: string, sessionId: string)
    | UpdatePlayers(names: seq<string>)
    | CategoryChanged(category: string)
    | RoundData(role: Role, word: Option<string>)

  /** A message sent to one socket, or broadcast to every socket in a room. */
  datatype Emit = ToSocket(socketId: string, msg: Message) | ToRoom(code: string, msg: Message)

  const DefaultCategory: string := "Ogólna"
  const DefaultName: string := "Anon"

  /** s || d, with "" standing for a missing or empty s. */
  function OrDefault(s: string, d: string): (r: string)
    ensures s != "" ==> r == s
    ensures s == "" ==> r == d
    ensures r == s || r == d
    ensures s != "" || d != "" ==> r != ""
  {
    if s == "" then d else s
  }

  /**
   * Array.prototype.findIndex (and find, through the index): the first
   * position whose element satisfies f, or -1 when there is none.
   */
  function FindIndex<T>(s: seq<T>, f: T -> bool): (i: int)
    ensures -1 <= i < |s|
    ensures 0 <= i ==> f(s[i]) && forall k :: 0 <= k < i ==> !f(s[k])
    ensures i == -1 ==> forall k :: 0 <= k < |s| ==> !f(s[k])
  {
    if |s| == 0 then -1
    else if f(s[0]) then 0
    else
      var k := FindIndex(s[1..], f);
      if k < 0 then -1 else k + 1
  }

  /** The first player holding session sid, or -1. */
  function SessionIndex(players: seq<Player>, sid: string): (i: int) {
    FindIndex(players, (p: Player) => p.sessionId == sid)
  }

  /** The first player connected through socket s, or -1. */
  function SocketIndex(players: seq<Player>, s: string): (i: int) {
    FindIndex(players, (p: Player) => p.socketId == Some(s))
  }

  /** A socketId that is set and non-empty: the player is connected. */
  predicate Online(p: Player) {
    p.socketId.Some? && p.socketId.value != ""
  }

  predicate AllOffline(players: seq<Player>) {
    forall k :: 0 <= k < |players| ==> !Online(players[k])
  }

  /** players.map(p => p.name) */
  function Names(players: seq<Player>): (names: seq<string>)
    ensures |names| == |players|
    ensures forall k :: 0 <= k < |players| ==> names[k] == players[k].name
  {
    seq(|players|, k requires 0 <= k < |players| => players[k].name)
  }

  /** The names shown after a disconnect: offline players marked " (offline)". */
  function ShownNames(players: seq<Player>): (names: seq<string>)
    ensures |names| == |players|
    ensures forall k :: 0 <= k < |players| ==>
      (Online(players[k]) <==> names[k] == players[k].name)
  {
    seq(|players|, k requires 0 <= k < |players| =>
      players[k].name + (if Online(players[k]) then "" else " (offline)"))
  }

  /** The marked list equals the plain one exactly when every player is connected. */
  lemma ShownNamesMarkOffline(players: seq<Player>)
    ensures ShownNames(players) == Names(players) <==> forall k :: 0 <= k < |players| ==> Online(players[k])
  {
    if ShownNames(players) == Names(players) {
      forall k | 0 <= k < |players| ensures Online(players[k]) {
        assert ShownNames(players)[k] == Names(players)[k];
      }
    }
  }

  predicate UniqueSessions(players: seq<Player>) {
    forall j, k :: 0 <= j < k < |players| ==> players[j].sessionId != players[k].sessionId
  }

  predicate PlayerValid(p: Player) {
    p.sessionId != "" && p.id == p.sessionId
  }

  /**
   * What every stored room satisfies: each player holds a non-empty session
   * token of its own, equal to its id, and every history is a valid history
   * of a category of the word bank.
   */
  predicate RoomValid(r: Room, words: WordBank) {
    && UniqueSessions(r.players)
    && (forall k :: 0 <= k < |r.players| ==> PlayerValid(r.players[k]))
    && HistoriesValid(words, r.usedWords)
  }

  // ---------------------------------------------------------------------
  // createRoom

  /** The room createRoom stores: its creator as only player and host. */
  function NewRoom(socketId: string, name: string, category: string, sessionId: string): (r: Room)
    ensures |r.players| == 1 && SessionIndex(r.players, r.host) == 0
  {
    var player := Player(sessionId, Some(socketId), OrDefault(name, DefaultName), sessionId);
    Room([player], sessionId, OrDefault(category, DefaultCategory), map[])
  }

  /**
   * A new room holds one player, connected and the host, holding the token
   * the reply carries and named as requested or "Anon"; its category is the
   * requested one or "Ogólna", whether or not the word bank has it; it has no
   * history yet, and it is a valid room.
   */
  lemma NewRoomOutcome(words: WordBank, socketId: string, name: string, category: string, sessionId: string)
    requires sessionId != ""
    ensures var r := NewRoom(socketId, name, category, sessionId);
      && |r.players| == 1
      && r.host == sessionId
      && r.players[0].sessionId == sessionId
      && SessionIndex(r.players, r.host) == 0
      && (socketId != "" ==> Online(r.players[0]))
      && r.players[0].name == (if name == "" then DefaultName else name)
      && r.category == (if category == "" then DefaultCategory else category)
      && r.usedWords == map[]
      && RoomValid(r, words)
  {
  }

  // ---------------------------------------------------------------------
  // joinRoom

  /** The session a join answers with: the presented one if it is set, else the fresh one. */
  function JoinedSession(sessionId: string, freshId: string): (sid: string) {
    OrDefault(sessionId, freshId)
  }

  /**
   * joinRoom on an existing room: a player holding the presented session is
   * reconnected in place (new socket, new name unless none is given);
   * otherwise a player is appended under the presented session, or under the
   * fresh one when none is presented.
   */
  function Rejoin(r: Room, socketId: string, name: string, sessionId: string, freshId: string): (r': Room)
    ensures |r'.players| == |r.players| + (if 0 <= SessionIndex(r.players, sessionId) then 0 else 1)
    ensures 0 <= SessionIndex(r'.players, if 0 <= SessionIndex(r.players, sessionId) then sessionId else JoinedSession(sessionId, freshId))
    ensures r'.host == r.host && r'.category == r.category && r'.usedWords == r.usedWords
  {
    var i := SessionIndex(r.players, sessionId);
    if 0 <= i then
      var p := r.players[i];
      var r' := r.(players := r.players[i := p.(socketId := Some(socketId), name := OrDefault(name, p.name))]);
      assert r'.players[i].sessionId == sessionId;
      r'
    else
      var sid := JoinedSession(sessionId, freshId);
      var r' := r.(players := r.players + [Player(sid, Some(socketId), OrDefault(name, DefaultName), sid)]);
      assert r'.players[|r.players|].sessionId == sid;
      r'
  }

  /**
   * A reconnect changes only the matching player's socket and (when one is
   * given) name and keeps the player count; a new session appends exactly one
   * connected player and leaves the earlier ones untouched. Host, category and
   * histories never change.
   */
  lemma RejoinOutcome(r: Room, socketId: string, name: string, sessionId: string, freshId: string)
    ensures var r' := Rejoin(r, socketId, name, sessionId, freshId);
      var i := SessionIndex(r.players, sessionId);
      && r'.host == r.host && r'.category == r.category && r'.usedWords == r.usedWords
      && (0 <= i ==>
            && |r'.players| == |r.players|
            && r'.players[i].sessionId == sessionId
            && r'.players[i].socketId == Some(socketId)
            && r'.players[i].name == (if name == "" then r.players[i].name else name)
            && r'.players[i].id == r.players[i].id
            && forall k :: 0 <= k < |r.players| && k != i ==> r'.players[k] == r.players[k])
      && (i < 0 ==>
            && |r'.players| == |r.players| + 1
            && r'.players[..|r.players|] == r.players
            && r'.players[|r.players|].sessionId == JoinedSession(sessionId, freshId)
            && r'.players[|r.players|].socketId == Some(socketId)
            && r'.players[|r.players|].name == (if name == "" then DefaultName else name))
  {
  }

  /**
   * A join keeps a room valid as long as the fresh token is new to the room:
   * a presented session that is not found is new to the room by definition.
   */
  lemma RejoinKeepsRoomValid(words: WordBank, r: Room, socketId: string, name: string, sessionId: string, freshId: string)
    requires RoomValid(r, words)
    requires freshId != "" && SessionIndex(r.players, freshId) < 0
    ensures RoomValid(Rejoin(r, socketId, name, sessionId, freshId), words)
  {
    var r' := Rejoin(r, socketId, name, sessionId, freshId);
    if SessionIndex(r.players, sessionId) < 0 {
      var sid := JoinedSession(sessionId, freshId);
      assert forall k :: 0 <= k < |r.players| ==> r'.players[k] == r.players[k];
      assert forall k :: 0 <= k < |r.players| ==> r.players[k].sessionId != sid;
    }
  }

  /**
   * Joining again with the session a join answered with is a reconnect: the
   * player count stays what the first join made it.
   */
  lemma SecondJoinReconnects(r: Room, socketId: string, name: string, sessionId: string, freshId: string,
                             socketId2: string, name2: string, freshId2: string)
    ensures var sid := if 0 <= SessionIndex(r.players, sessionId) then sessionId else JoinedSession(sessionId, freshId);
      var r1 := Rejoin(r, socketId, name, sessionId, freshId);
      && 0 <= SessionIndex(r1.players, sid)
      && |Rejoin(r1, socketId2, name2, sid, freshId2).players| == |r1.players|
  {
    var sid := if 0 <= SessionIndex(r.players, sessionId) then sessionId else JoinedSession(sessionId, freshId);
    var r1 := Rejoin(r, socketId, name, sessionId, freshId);
    var i := SessionIndex(r.players, sessionId);
    if 0 <= i {
      assert r1.players[i].sessionId == sid;
    } else {
      assert r1.players[|r.players|].sessionId == sid;
    }
  }

  /**
   * After a join the room has a connected player, so a cleanup check that
   * runs later finds it not all offline and keeps it.
   */
  lemma JoinedRoomNotAllOffline(r: Room, socketId: string, name: string, sessionId: string, freshId: string)
    requires socketId != ""
    ensures !AllOffline(Rejoin(r, socketId, name, sessionId, freshId).players)
  {
    var r' := Rejoin(r, socketId, name, sessionId, freshId);
    var i := SessionIndex(r.players, sessionId);
    if 0 <= i {
      assert Online(r'.players[i]);
    } else {
      assert Online(r'.players[|r.players|]);
    }
  }

  // ---------------------------------------------------------------------
  // disconnect

  /** The player at i loses its socket; nobody is removed. */
  function MarkedOffline(r: Room, i: nat): (r': Room)
    requires i < |r.players|
    ensures |r'.players| == |r.players| && !Online(r'.players[i])
    ensures r'.host == r.host
  {
    r.(players := r.players[i := r.players[i].(socketId := None)])
  }

  /**
   * Marking a player offline keeps every player, session and name, changes
   * only that player's socket, never touches host, category or histories, and
   * keeps the room valid.
   */
  lemma MarkedOfflineOutcome(words: WordBank, r: Room, i: nat)
    requires i < |r.players|
    ensures var r' := MarkedOffline(r, i);
      && |r'.players| == |r.players|
      && !Online(r'.players[i])
      && Names(r'.players) == Names(r.players)
      && (forall k :: 0 <= k < |r.players| ==> r'.players[k].sessionId == r.players[k].sessionId)
      && (forall k :: 0 <= k < |r.players| && k != i ==> r'.players[k] == r.players[k])
      && r'.host == r.host && r'.category == r.category && r'.usedWords == r.usedWords
      && (RoomValid(r, words) ==> RoomValid(r', words))
  {
  }

  /**
   * A player who went offline and presents their session again is
   * reconnected in place: the room keeps its size and the player is online.
   */
  lemma ReconnectAfterDisconnect(r: Room, i: nat, socketId: string, name: string, freshId: string)
    requires i < |r.players| && UniqueSessions(r.players) && socketId != ""
    ensures var r1 := MarkedOffline(r, i);
      var r2 := Rejoin(r1, socketId, name, r.players[i].sessionId, freshId);
      && |r2.players| == |r.players|
      && Online(r2.players[i])
      && r2.players[i].sessionId == r.players[i].sessionId
  {
    var r1 := MarkedOffline(r, i);
    var sid := r.players[i].sessionId;
    var j := SessionIndex(r1.players, sid);
    assert r1.players[i].sessionId == sid;
    assert j == i;
  }

  // ---------------------------------------------------------------------
  // leaveRoom

  /** leaveRoom on an existing room: the first player holding the session is removed. */
  function Left(r: Room, sessionId: string): (r': Room)
    ensures |r'.players| == |r.players| - (if 0 <= SessionIndex(r.players, sessionId) then 1 else 0)
    ensures r'.host == r.host
  {
    var i := SessionIndex(r.players, sessionId);
    if 0 <= i then r.(players := r.players[..i] + r.players[i + 1..]) else r
  }

  /**
   * Leaving removes exactly the player holding the session, keeps the others
   * in their order, and never touches host, category or histories, even when
   * the leaving player is the host or the last one. In a valid room the
   * session is gone afterwards and the room stays valid.
   */
  lemma LeftOutcome(words: WordBank, r: Room, sessionId: string)
    ensures var r' := Left(r, sessionId);
      var i := SessionIndex(r.players, sessionId);
      && r'.host == r.host && r'.category == r.category && r'.usedWords == r.usedWords
      && (i < 0 ==> r' == r)
      && (0 <= i ==>
            && |r'.players| == |r.players| - 1
            && (forall k :: 0 <= k < i ==> r'.players[k] == r.players[k])
            && (forall k :: i <= k < |r'.players| ==> r'.players[k] == r.players[k + 1]))
      && (RoomValid(r, words) ==> RoomValid(r', words) && SessionIndex(r'.players, sessionId) < 0)
  {
    var r' := Left(r, sessionId);
    var i := SessionIndex(r.players, sessionId);
    if 0 <= i {
      assert forall k :: 0 <= k < i ==> r'.players[k] == r.players[k];
      assert forall k :: i <= k < |r'.players| ==> r'.players[k] == r.players[k + 1];
    }
  }

  // ---------------------------------------------------------------------
  // setCategory

  /** The room after setCategory: the category is switched and an absent history starts empty. */
  function WithCategory(r: Room, category: string): (r': Room)
    ensures r'.category == category && category in r'.usedWords
    ensures r'.usedWords[category] == HistoryOf(r.usedWords, category)
  {
    r.(category := category,
       usedWords := if category in r.usedWords then r.usedWords else r.usedWords[category := []])
  }

  /**
   * Switching keeps the existing history of the category (the source only
   * initialises an absent one), leaves every other history, the players and
   * the host alone, and keeps a room valid when the category is in the bank.
   */
  lemma WithCategoryOutcome(words: WordBank, r: Room, category: string)
    ensures var r' := WithCategory(r, category);
      && r'.category == category
      && category in r'.usedWords
      && r'.usedWords[category] == HistoryOf(r.usedWords, category)
      && r'.usedWords.Keys == r.usedWords.Keys + {category}
      && (forall c :: c in r.usedWords ==> r'.usedWords[c] == r.usedWords[c])
      && r'.players == r.players && r'.host == r.host
      && (RoomValid(r, words) && category in words ==> RoomValid(r', words))
  {
  }

  // ---------------------------------------------------------------------
  // startRound

  /** words[category][idx], which is undefined (None) outside the list. */
  function WordAt(ws: seq<string>, idx: int): (w: Option<string>)
    ensures w.Some? <==> 0 <= idx < |ws|
  {
    if 0 <= idx < |ws| then Some(ws[idx]) else None
  }

  /** The impostor is the player holding the impostor's session. */
  function RoleOf(p: Player, impostorSession: string): (role: Role) {
    if p.sessionId == impostorSession then Impostor else Crew
  }

  /** The impostor learns no word; everyone else learns the round's word. */
  function RoundMessage(role: Role, word: Option<string>): (m: Message) {
    if role == Impostor then RoundData(Impostor, None) else RoundData(Crew, word)
  }

  /** What one player receives: their role message, or nothing when offline. */
  function DeliveryTo(p: Player, impostorSession: string, word: Option<string>): (ds: seq<Emit>) {
    if Online(p) then [ToSocket(p.socketId.value, RoundMessage(RoleOf(p, impostorSession), word))] else []
  }

  /** players.forEach(...): each player's delivery, in player order. */
  function RoundDeliveries(players: seq<Player>, impostorSession: string, word: Option<string>): (ds: seq<Emit>)
    ensures |ds| <= |players|
    ensures forall n :: 0 <= n < |ds| ==> ds[n].ToSocket? && ds[n].msg.RoundData?
    decreases |players|
  {
    if |players| == 0 then []
    else
      RoundDeliveries(players[..|players| - 1], impostorSession, word)
        + DeliveryTo(players[|players| - 1], impostorSession, word)
  }

  function OnlineCount(players: seq<Player>): (n: nat)
    decreases |players|
  {
    if |players| == 0 then 0
    else OnlineCount(players[..|players| - 1]) + (if Online(players[|players| - 1]) then 1 else 0)
  }

  function ImpostorCount(ds: seq<Emit>): (n: nat)
    decreases |ds|
  {
    if |ds| == 0 then 0
    else ImpostorCount(ds[..|ds| - 1]) + (if ds[|ds| - 1].msg == RoundData(Impostor, None) then 1 else 0)
  }

  /**
   * A round sends one message per connected player and none to offline
   * players; every message goes to a socket and is either the impostor's
   * (no word) or the crew's, and all crew messages carry the same word.
   */
  lemma {:induction false} RoundDeliveriesShape(players: seq<Player>, impostorSession: string, word: Option<string>)
    ensures var ds := RoundDeliveries(players, impostorSession, word);
      && |ds| == OnlineCount(players)
      && forall n :: 0 <= n < |ds| ==>
           && ds[n].ToSocket?
           && (ds[n].msg == RoundData(Impostor, None) || ds[n].msg == RoundData(Crew, word))
    decreases |players|
  {
    if |players| > 0 {
      RoundDeliveriesShape(players[..|players| - 1], impostorSession, word);
    }
  }

  /** Each connected player receives the message for their role on their own socket. */
  lemma {:induction false} OnlinePlayerReceives(players: seq<Player>, impostorSession: string, word: Option<string>, k: nat)
    requires k < |players| && Online(players[k])
    ensures ToSocket(players[k].socketId.value, RoundMessage(RoleOf(players[k], impostorSession), word))
      in RoundDeliveries(players, impostorSession, word)
    decreases |players|
  {
    if k < |players| - 1 {
      OnlinePlayerReceives(players[..|players| - 1], impostorSession, word, k);
    }
  }

  /** Every message of a round comes from a connected player's own delivery. */
  lemma {:induction false} DeliverySender(players: seq<Player>, impostorSession: string, word: Option<string>, n: nat)
    returns (k: nat)
    requires n < |RoundDeliveries(players, impostorSession, word)|
    ensures k < |players| && Online(players[k])
    ensures RoundDeliveries(players, impostorSession, word)[n] == DeliveryTo(players[k], impostorSession, word)[0]
    decreases |players|
  {
    var front := RoundDeliveries(players[..|players| - 1], impostorSession, word);
    if n < |front| {
      k := DeliverySender(players[..|players| - 1], impostorSession, word, n);
    } else {
      k := |players| - 1;
    }
  }

  /**
   * With sessions unique, the player at i chosen as impostor is the only one
   * told so: exactly one impostor message when they are connected, none
   * otherwise.
   */
  lemma {:induction false} ExactlyOneImpostor(players: seq<Player>, i: nat, word: Option<string>)
    requires UniqueSessions(players) && i < |players|
    ensures ImpostorCount(RoundDeliveries(players, players[i].sessionId, word)) == if Online(players[i]) then 1 else 0
    decreases |players|
  {
    var sid := players[i].sessionId;
    var front := players[..|players| - 1];
    var last := players[|players| - 1];
    var ds := RoundDeliveries(front, sid, word);
    var d := DeliveryTo(last, sid, word);
    ImpostorCountAppend(ds, d);
    if i < |players| - 1 {
      ExactlyOneImpostor(front, i, word);
      assert front[i] == players[i];
      assert last.sessionId != sid;
    } else {
      NoImpostorWithoutSession(front, sid, word);
    }
  }

  /** No player of the list holds the impostor's session: nobody is told they are the impostor. */
  lemma {:induction false} NoImpostorWithoutSession(players: seq<Player>, impostorSession: string, word: Option<string>)
    requires forall k :: 0 <= k < |players| ==> players[k].sessionId != impostorSession
    ensures ImpostorCount(RoundDeliveries(players, impostorSession, word)) == 0
    decreases |players|
  {
    if |players| > 0 {
      var front := players[..|players| - 1];
      NoImpostorWithoutSession(front, impostorSession, word);
      ImpostorCountAppend(RoundDeliveries(front, impostorSession, word),
                          DeliveryTo(players[|players| - 1], impostorSession, word));
    }
  }

  lemma {:induction false} ImpostorCountAppend(a: seq<Emit>, b: seq<Emit>)
    ensures ImpostorCount(a + b) == ImpostorCount(a) + ImpostorCount(b)
    decreases |b|
  {
    if |b| > 0 {
      assert (a + b)[..|a + b| - 1] == a + b[..|b| - 1];
      ImpostorCountAppend(a, b[..|b| - 1]);
    } else {
      assert a + b == a;
    }
  }

  /** The forEach loop of startRound, sending each connected player their message. */
  method DeliverRound(players: seq<Player>, impostorSession: string, word: Option<string>) returns (ds: seq<Emit>)
    ensures ds == RoundDeliveries(players, impostorSession, word)
  {
    ds := [];
    for i := 0 to |players|
      invariant ds == RoundDeliveries(players[..i], impostorSession, word)
    {
      assert players[..i + 1][..i] == players[..i];
      var p := players[i];
      if Online(p) {
        if p.sessionId == impostorSession {
          ds := ds + [ToSocket(p.socketId.value, RoundData(Impostor, None))];
        } else {
          ds := ds + [ToSocket(p.socketId.value, RoundData(Crew, word))];
        }
      }
    }
    assert players[..|players|] == players;
  }
}
