/** The second chat server, chat_server.py: a list of client sockets plus a
    socket-to-name dict, no name rules, and a broadcast whose failed
    recipients are removed only after the fan-out, each removal announcing
    a goodbye unless the name passed is the sentinel 'Unknown'.

    As in the other server, each step runs without interleaving and a send
    to a socket in `dead` raises `socket.error`. */
module ListChat {
  import opened Options
  import opened Text
  import opened Seqs
  import opened Wire

  /** `self.clients` and `self.client_names`. Both are appended to at join
      and removed from together, so the dict's iteration order, which
      `handle_whisper` searches in, is the order of `clients`. */
  datatype Room = Room(clients: seq<Sock>, names: map<Sock, string>)

  const EmptyRoom := Room([], map[])

  const Unknown := "Unknown"
  const QuitCommand := "/종료"
  const WhisperPrefix := "/귀속말 "
  const WhisperFormatNotice := "귀속말 형식: /귀속말 대상이름 메시지"
  /** The notice sent when a whisper send raises; the exception's own text
      is not modelled. */
  const WhisperErrorNotice := "귀속말 전송 중 오류: "

  function JoinMessage(name: string): string {
    name + "님이 입장하셨습니다."
  }

  function Goodbye(name: string): string {
    name + "님이 퇴장하셨습니다."
  }

  function ChatLine(name: string, message: string): string {
    name + "> " + message
  }

  function WhisperToTarget(sender: string, body: string): string {
    "[귀속말] " + sender + "> " + body
  }

  function WhisperEcho(sender: string, target: string, body: string): string {
    "[귀속말] " + sender + " -> " + target + ": " + body
  }

  function NotFound(target: string): string {
    target + "님을 찾을 수 없습니다."
  }

  /** Every listed client has a name entry and the list has no repeats. */
  ghost predicate Inv(room: Room) {
    && NoDup(room.clients)
    && (forall c :: c in room.clients <==> c in room.names)
  }

  /** `room'` has no client and no name entry that `room` lacked. */
  ghost predicate Shrinks(room: Room, room': Room) {
    && (forall c :: c in room'.clients ==> c in room.clients)
    && (forall c :: c in room'.names ==> c in room.names && room'.names[c] == room.names[c])
    && |room'.names| <= |room.names|
  }

  /** `self.client_names.get(c, 'Unknown')`. */
  function NameOrUnknown(room: Room, c: Sock): string {
    if c in room.names then room.names[c] else Unknown
  }

  /** The two deletions at the top of `remove_client`, each made only when
      the entry is present. */
  function Detach(room: Room, c: Sock): (room': Room)
    ensures c !in room'.clients || (c in room.clients && !NoDup(room.clients))
    ensures c !in room'.names
    ensures Shrinks(room, room')
    ensures c in room.names ==> |room'.names| == |room.names| - 1
    ensures forall d :: d != c ==> (d in room'.clients <==> d in room.clients)
    ensures forall d :: d != c && d in room.names ==> d in room'.names
    ensures Inv(room) ==> Inv(room')
  {
    var room' := Room(RemoveFirst(room.clients, c), room.names - {c});
    assert room'.names.Keys == room.names.Keys - {c};
    room'
  }

  // ---------------------------------------------------------------------
  // broadcast_message and remove_client

  /** The sends of the fan-out loop of `broadcast_message`: every client in
      list order except the sender, skipping the ones whose send raises. */
  function DirectSends(clients: seq<Sock>, data: string, sender: Option<Sock>, dead: set<Sock>): (out: seq<Send>)
    ensures forall i :: 0 <= i < |out| ==> out[i].data == data
    ensures forall s :: s in Recipients(out) <==> s in clients && sender != Some(s) && s !in dead
    ensures NoDup(clients) ==> NoDup(Recipients(out))
    decreases |clients|
  {
    if clients == [] then []
    else
      var c := clients[0];
      var rest := DirectSends(clients[1..], data, sender, dead);
      assert forall t :: t in clients <==> t == c || t in clients[1..];
      NoDupTail(clients);
      if sender != Some(c) && c !in dead then
        var out := [Send(c, data)] + rest;
        assert out[1..] == rest;
        out
      else rest
  }

  /** The clients the fan-out loop collects in `disconnected_clients`. */
  function FailedSends(clients: seq<Sock>, sender: Option<Sock>, dead: set<Sock>): (failed: seq<Sock>)
    ensures forall s :: s in failed <==> s in clients && sender != Some(s) && s in dead
    decreases |clients|
  {
    if clients == [] then []
    else
      var rest := FailedSends(clients[1..], sender, dead);
      assert forall t :: t in clients <==> t == clients[0] || t in clients[1..];
      if sender != Some(clients[0]) && clients[0] in dead then [clients[0]] + rest else rest
  }

  lemma NoDupTail(s: seq<Sock>)
    requires s != []
    ensures NoDup(s) ==> NoDup(s[1..]) && s[0] !in s[1..]
  {
    if NoDup(s) {
      assert forall k :: 0 <= k < |s[1..]| ==> s[1..][k] == s[k + 1];
    }
  }

  /** A broadcast's effect: the room after the removals, the lines of the
      fan-out itself, then the lines that the removals' goodbyes sent, and
      the clients whose departure a goodbye announced, in order. */
  datatype Fan = Fan(room: Room, direct: seq<Send>, cascade: seq<Send>, departed: seq<Sock>) {
    function Out(): seq<Send> {
      direct + cascade
    }
  }

  /** `broadcast_message(message, sender)`. Under the invariant, every live
      client other than the sender receives `message + '\n'` once, in the
      fan-out, before any goodbye that a removal triggers; every client
      whose send failed is gone from the room afterwards. */
  function Broadcast(room: Room, message: string, sender: Option<Sock>, dead: set<Sock>): (f: Fan)
    ensures forall i :: 0 <= i < |f.direct| ==> f.direct[i].data == Frame(message)
    ensures forall s :: s in Recipients(f.direct) <==> s in room.clients && sender != Some(s) && s !in dead
    ensures Inv(room) ==> NoDup(Recipients(f.direct))
    ensures forall c :: c in room.clients && sender != Some(c) && c in dead ==> c !in f.room.names
    ensures forall c :: c in room.names && c !in dead ==> c in f.room.names
    ensures Shrinks(room, f.room)
    ensures Inv(room) ==> Inv(f.room)
    ensures Departures(f.departed, room.names.Keys, f.room)
    decreases |room.names|, 2, 0
  {
    var direct := DirectSends(room.clients, Frame(message), sender, dead);
    var removed := RemoveEach(room, FailedSends(room.clients, sender, dead), dead);
    Fan(removed.room, direct, removed.out, removed.departed)
  }

  datatype Outcome = Outcome(room: Room, out: seq<Send>, departed: seq<Sock>)

  /** The departures `ds` announced on the way to `after`: each one was
      among `known` and is gone from `after`, and none is announced twice. */
  ghost predicate Departures(ds: seq<Sock>, known: set<Sock>, after: Room) {
    && NoDup(ds)
    && (forall d :: d in ds ==> d in known && d !in after.names)
  }

  /** A client removed from `mid` and announced before the departures on
      the way from `mid` to `last`. */
  lemma DepartureFirst(c: Sock, known: set<Sock>, mid: Room, ds: seq<Sock>, last: Room)
    requires c !in mid.names
    requires Departures(ds, mid.names.Keys, last)
    requires Shrinks(mid, last)
    requires forall d :: d in mid.names ==> d in known
    ensures Departures([c] + ds, known + {c}, last)
  {
    NoDupAppend([c], ds);
  }

  /** A removal under the name the dict holds announces only a client the
      dict held. */
  lemma KnownDeparture(room: Room, c: Sock, name: string, ds: seq<Sock>, after: Room)
    requires name == NameOrUnknown(room, c)
    requires Departures(ds, room.names.Keys + (if name == Unknown then {} else {c}), after)
    ensures Departures(ds, room.names.Keys, after)
  {
  }

  /** Departures announced before `mid` and then between `mid` and `last`
      are together departures on the way to `last`. */
  lemma DeparturesAppend(a: seq<Sock>, b: seq<Sock>, known: set<Sock>, mid: Room, last: Room)
    requires Departures(a, known, mid)
    requires Departures(b, mid.names.Keys, last)
    requires Shrinks(mid, last)
    requires forall c :: c in mid.names ==> c in known
    ensures Departures(a + b, known, last)
  {
    NoDupAppend(a, b);
  }

  /** `sends` carry `data` to every client of `room` other than `sender`
      whose send succeeds, once each, and to nobody else. */
  ghost predicate FannedOut(sends: seq<Send>, room: Room, data: string, sender: Sock, dead: set<Sock>) {
    && (forall i :: 0 <= i < |sends| ==> sends[i].data == data)
    && (forall s :: s in Recipients(sends) <==> s in room.clients && s != sender && s !in dead)
    && NoDup(Recipients(sends))
  }

  /** `out` begins with such a fan-out; whatever a removal's goodbye or a
      later step sends comes after it. */
  ghost predicate OpensWithFanout(out: seq<Send>, room: Room, data: string, sender: Sock, dead: set<Sock>) {
    exists k :: 0 <= k <= |out| && FannedOut(out[..k], room, data, sender, dead)
  }

  lemma FanoutOpens(sends: seq<Send>, rest: seq<Send>, room: Room, data: string, sender: Sock, dead: set<Sock>)
    requires FannedOut(sends, room, data, sender, dead)
    ensures OpensWithFanout(sends + rest, room, data, sender, dead)
  {
    assert (sends + rest)[..|sends|] == sends;
  }

  lemma OpensWithFanoutExtend(out: seq<Send>, rest: seq<Send>, room: Room, data: string, sender: Sock, dead: set<Sock>)
    requires OpensWithFanout(out, room, data, sender, dead)
    ensures OpensWithFanout(out + rest, room, data, sender, dead)
  {
    var k :| 0 <= k <= |out| && FannedOut(out[..k], room, data, sender, dead);
    assert (out + rest)[..k] == out[..k];
  }

  /** The removal loop at the end of `broadcast_message`: each collected
      client is removed with the name the dict holds for it at that moment,
      or 'Unknown' once an earlier goodbye has already removed it. */
  function RemoveEach(room: Room, failed: seq<Sock>, dead: set<Sock>): (o: Outcome)
    ensures forall c :: c in failed ==> c !in o.room.names
    ensures forall c :: c in room.names && c !in dead && c !in failed ==> c in o.room.names
    ensures Shrinks(room, o.room)
    ensures Inv(room) ==> Inv(o.room)
    ensures Departures(o.departed, room.names.Keys, o.room)
    decreases |room.names|, 1, |failed|
  {
    if failed == [] then Outcome(room, [], [])
    else
      var c := failed[0];
      var first := RemoveClient(room, c, NameOrUnknown(room, c), dead);
      var rest := RemoveEach(first.room, failed[1..], dead);
      RemoveEachStep(room, first.room, rest.room, failed, dead);
      KnownDeparture(room, c, NameOrUnknown(room, c), first.departed, first.room);
      DeparturesAppend(first.departed, rest.departed, room.names.Keys, first.room, rest.room);
      Outcome(rest.room, first.Out() + rest.out, first.departed + rest.departed)
  }

  /** One turn of the removal loop composed with the rest of it. */
  lemma RemoveEachStep(room: Room, mid: Room, last: Room, failed: seq<Sock>, dead: set<Sock>)
    requires failed != []
    requires failed[0] !in mid.names && Shrinks(room, mid)
    requires forall d :: d in room.names && d != failed[0] && d !in dead ==> d in mid.names
    requires forall t :: t in failed[1..] ==> t !in last.names
    requires forall t :: t in mid.names && t !in dead && t !in failed[1..] ==> t in last.names
    requires Shrinks(mid, last)
    ensures forall t :: t in failed ==> t !in last.names
    ensures forall t :: t in room.names && t !in dead && t !in failed ==> t in last.names
    ensures Shrinks(room, last)
  {
    assert forall t :: t in failed ==> t == failed[0] || t in failed[1..];
  }

  /** `remove_client(c, name)`: drop `c` from the list and the dict when
      present, then broadcast a goodbye for `name` unless it is 'Unknown'.
      The goodbye goes to everyone left, and `c` no longer is; its
      departure is announced first, before any the goodbye's own failed
      sends cause. */
  function RemoveClient(room: Room, c: Sock, name: string, dead: set<Sock>): (f: Fan)
    ensures c !in f.room.names
    ensures name == Unknown ==> f == Fan(Detach(room, c), [], [], [])
    ensures name != Unknown ==> f.departed != [] && f.departed[0] == c
    ensures name != Unknown ==>
              && (forall i :: 0 <= i < |f.direct| ==> f.direct[i].data == Frame(Goodbye(name)))
              && (forall s :: s in Recipients(f.direct) <==> s in Detach(room, c).clients && s !in dead)
              && (Inv(room) ==> NoDup(Recipients(f.direct)))
    ensures forall d :: d in room.names && d != c && d !in dead ==> d in f.room.names
    ensures Shrinks(room, f.room)
    ensures Inv(room) ==> Inv(f.room)
    ensures Departures(f.departed, room.names.Keys + (if name == Unknown then {} else {c}), f.room)
    decreases |room.names| + (if c !in room.names && name != Unknown then 1 else 0), 0, 0
  {
    var detached := Detach(room, c);
    if name == Unknown then Fan(detached, [], [], [])
    else
      var b := Broadcast(detached, Goodbye(name), None, dead);
      DepartureFirst(c, room.names.Keys, detached, b.departed, b.room);
      Fan(b.room, b.direct, b.cascade, [c] + b.departed)
  }

  // ---------------------------------------------------------------------
  // handle_whisper

  /** The first client, in dict order, whose name is `target`. */
  function FindByName(clients: seq<Sock>, names: map<Sock, string>, target: string): (r: Option<Sock>)
    ensures r.Some? ==> r.value in clients && r.value in names && names[r.value] == target
    ensures r.None? <==> forall c :: c in clients && c in names ==> names[c] != target
    ensures r.Some? ==> forall j :: 0 <= j < IndexOf(clients, r.value) ==> !(clients[j] in names && names[clients[j]] == target)
    decreases |clients|
  {
    if clients == [] then None
    else if clients[0] in names && names[clients[0]] == target then Some(clients[0])
    else
      assert forall t :: t in clients <==> t == clients[0] || t in clients[1..];
      FindByName(clients[1..], names, target)
  }

  datatype Step = Step(room: Room, out: seq<Send>, goOn: bool, departed: seq<Sock>)

  /** A send to the whisperer inside `handle_whisper`'s `try`: when it
      raises, the handler's own error notice to the same socket raises
      again and ends the message loop. */
  function ReplyOrStop(room: Room, sender: Sock, text: string, dead: set<Sock>): Step {
    if sender in dead then Step(room, [], false, [])
    else Step(room, [Send(sender, Frame(text))], true, [])
  }

  /** `handle_whisper(sender, senderName, message)`. It never changes the
      room. Fewer than three parts gives only the format notice to the
      sender. A name nobody holds gives only the not-found notice to the
      sender. Otherwise the first client holding the name receives the
      whisper and the sender receives the echo. A failed send to the target
      gives the error notice instead; a failed send to the sender stops the
      loop. Nobody is removed, so nobody's departure is announced. */
  function HandleWhisper(room: Room, sender: Sock, senderName: string, message: string, dead: set<Sock>): (st: Step)
    ensures st.room == room
    ensures |SplitMax2(message, ' ')| < 3 ==> st == ReplyOrStop(room, sender, WhisperFormatNotice, dead)
    ensures |SplitMax2(message, ' ')| == 3 &&
            FindByName(room.clients, room.names, SplitMax2(message, ' ')[1]).None? ==>
              st == ReplyOrStop(room, sender, NotFound(SplitMax2(message, ' ')[1]), dead)
    ensures |SplitMax2(message, ' ')| == 3 &&
            FindByName(room.clients, room.names, SplitMax2(message, ' ')[1]).Some? ==>
              var target := SplitMax2(message, ' ')[1];
              var body := SplitMax2(message, ' ')[2];
              var t := FindByName(room.clients, room.names, target).value;
              var toTarget := Send(t, Frame(WhisperToTarget(senderName, body)));
              && (t in dead ==> st == ReplyOrStop(room, sender, WhisperErrorNotice, dead))
              && (t !in dead && sender in dead ==> st == Step(room, [toTarget], false, []))
              && (t !in dead && sender !in dead ==>
                    st == Step(room, [toTarget, Send(sender, Frame(WhisperEcho(senderName, target, body)))], true, []))
    ensures st.departed == []
  {
    var parts := SplitMax2(message, ' ');
    if |parts| < 3 then ReplyOrStop(room, sender, WhisperFormatNotice, dead)
    else
      var target := parts[1];
      var body := parts[2];
      match FindByName(room.clients, room.names, target)
      case None => ReplyOrStop(room, sender, NotFound(target), dead)
      case Some(t) =>
        if t in dead then ReplyOrStop(room, sender, WhisperErrorNotice, dead)
        else
          var toTarget := Send(t, Frame(WhisperToTarget(senderName, body)));
          if sender in dead then Step(room, [toTarget], false, [])
          else Step(room, [toTarget, Send(sender, Frame(WhisperEcho(senderName, target, body)))], true, [])
  }

  // ---------------------------------------------------------------------
  // handle_client

  /** The join step of `handle_client`: strip the first text received,
      append the socket and its name with no check at all, and announce the
      newcomer to everyone but the newcomer. */
  function Join(room: Room, sock: Sock, firstText: string, dead: set<Sock>): (f: Fan)
    ensures forall i :: 0 <= i < |f.direct| ==> f.direct[i].data == Frame(JoinMessage(Strip(firstText)))
    ensures forall s :: s in Recipients(f.direct) <==> s in room.clients && s != sock && s !in dead
    ensures sock !in dead ==> sock in f.room.names && f.room.names[sock] == Strip(firstText)
    ensures forall c :: c in room.names && c != sock && c !in dead ==> c in f.room.names && f.room.names[c] == room.names[c]
    ensures Inv(room) && sock !in room.clients ==> Inv(f.room) && NoDup(Recipients(f.direct))
    ensures forall c :: c in f.room.names ==> c in room.names || c == sock
    ensures Departures(f.departed, room.names.Keys + {sock}, f.room)
  {
    Announce(room, sock, Strip(firstText), dead)
  }

  /** Admitting `sock` under `name` and broadcasting its arrival. */
  function Announce(room: Room, sock: Sock, name: string, dead: set<Sock>): (f: Fan)
    ensures forall i :: 0 <= i < |f.direct| ==> f.direct[i].data == Frame(JoinMessage(name))
    ensures forall s :: s in Recipients(f.direct) <==> s in room.clients && s != sock && s !in dead
    ensures sock !in dead ==> sock in f.room.names && f.room.names[sock] == name
    ensures forall c :: c in room.names && c != sock && c !in dead ==> c in f.room.names && f.room.names[c] == room.names[c]
    ensures Inv(room) && sock !in room.clients ==> Inv(f.room) && NoDup(Recipients(f.direct))
    ensures forall c :: c in f.room.names ==> c in room.names || c == sock
    ensures Departures(f.departed, room.names.Keys + {sock}, f.room)
  {
    var joined := Admit(room, sock, name);
    assert joined.names.Keys == room.names.Keys + {sock};
    var f := Broadcast(joined, JoinMessage(name), Some(sock), dead);
    assert forall s :: s in joined.clients && s != sock <==> s in room.clients && s != sock;
    f
  }

  /** Appending the socket and recording its name; a fresh socket keeps
      the list free of repeats and in step with the names. */
  function Admit(room: Room, sock: Sock, name: string): (joined: Room)
    ensures joined.clients == room.clients + [sock]
    ensures joined.names == room.names[sock := name]
    ensures Inv(room) && sock !in room.clients ==> Inv(joined)
  {
    AdmitKeepsInv(room, sock, name);
    Room(room.clients + [sock], room.names[sock := name])
  }

  lemma AdmitKeepsInv(room: Room, sock: Sock, name: string)
    ensures Inv(room) && sock !in room.clients ==> Inv(Room(room.clients + [sock], room.names[sock := name]))
  {
    var joined := Room(room.clients + [sock], room.names[sock := name]);
    if Inv(room) && sock !in room.clients {
      assert forall c :: c in joined.clients <==> c in room.clients || c == sock;
      assert forall i, j :: 0 <= i < j < |joined.clients| ==> joined.clients[i] != joined.clients[j];
    }
  }

  /** Handling of one received text in the loop of `handle_client`. An
      empty text is the end of the stream; the text is stripped; exactly
      "/종료" removes the client (with its goodbye) and ends the loop; a
      "/귀속말 " prefix is a whisper; anything else is broadcast to
      everyone but the sender. */
  function HandleText(room: Room, sock: Sock, name: string, received: string, dead: set<Sock>): (st: Step)
    ensures received == [] ==> st == Step(room, [], false, [])
    ensures received != [] && Strip(received) == QuitCommand ==>
              && !st.goOn && sock !in st.room.names
              && (name == Unknown ==> st.out == [] && st.departed == [])
              && (name != Unknown ==> st.departed != [] && st.departed[0] == sock)
              && (name != Unknown && Inv(room) ==> OpensWithFanout(st.out, room, Frame(Goodbye(name)), sock, dead))
    ensures received != [] && Strip(received) != QuitCommand && !StartsWith(Strip(received), WhisperPrefix) ==>
              && st.goOn
              && (Inv(room) ==> OpensWithFanout(st.out, room, Frame(ChatLine(name, Strip(received))), sock, dead))
              && (forall c :: c in room.clients && c != sock && c in dead ==> c !in st.room.names)
    ensures received != [] && StartsWith(Strip(received), WhisperPrefix) ==>
              st == HandleWhisper(room, sock, name, Strip(received), dead)
    ensures Shrinks(room, st.room)
    ensures Inv(room) ==> Inv(st.room)
    ensures Departures(st.departed, room.names.Keys + {sock}, st.room)
  {
    if received == [] then Step(room, [], false, [])
    else
      var message := Strip(received);
      if message == QuitCommand then
        var f := RemoveClient(room, sock, name, dead);
        GoodbyeOpens(room, sock, name, dead);
        Step(f.room, f.Out(), false, f.departed)
      else if StartsWith(message, WhisperPrefix) then
        HandleWhisper(room, sock, name, message, dead)
      else
        var f := Broadcast(room, ChatLine(name, message), Some(sock), dead);
        ChatOpens(room, sock, ChatLine(name, message), dead);
        Step(f.room, f.Out(), true, f.departed)
  }

  /** A broadcast from `sock` opens with its fan-out to the other clients. */
  lemma ChatOpens(room: Room, sock: Sock, message: string, dead: set<Sock>)
    ensures Inv(room) ==> OpensWithFanout(Broadcast(room, message, Some(sock), dead).Out(), room, Frame(message), sock, dead)
  {
    var f := Broadcast(room, message, Some(sock), dead);
    if Inv(room) {
      FanoutOpens(f.direct, f.cascade, room, Frame(message), sock, dead);
    }
  }

  /** Removing `sock` under a real name opens with the goodbye to every
      other client. */
  lemma GoodbyeOpens(room: Room, sock: Sock, name: string, dead: set<Sock>)
    ensures name != Unknown && Inv(room) ==>
              OpensWithFanout(RemoveClient(room, sock, name, dead).Out(), room, Frame(Goodbye(name)), sock, dead)
  {
    var f := RemoveClient(room, sock, name, dead);
    if name != Unknown && Inv(room) {
      assert forall s :: s in Detach(room, sock).clients <==> s in room.clients && s != sock;
      FanoutOpens(f.direct, f.cascade, room, Frame(Goodbye(name)), sock, dead);
    }
  }

  /** The message loop of `handle_client`. Once `sock` has been removed,
      by its own "/종료" or by the goodbye cascade of a failed send to it,
      `remove_client` has closed it: the next `recv` raises
      `socket.error`, and the loop stops without handling another text. */
  function Loop(room: Room, sock: Sock, name: string, received: seq<string>, dead: set<Sock>): (o: Outcome)
    ensures sock !in room.names ==> o == Outcome(room, [], [])
    ensures Shrinks(room, o.room)
    ensures Inv(room) ==> Inv(o.room)
    ensures Departures(o.departed, room.names.Keys, o.room)
    decreases |received|
  {
    if received == [] || sock !in room.names then Outcome(room, [], [])
    else
      var st := HandleText(room, sock, name, received[0], dead);
      assert room.names.Keys + {sock} == room.names.Keys;
      if !st.goOn then Outcome(st.room, st.out, st.departed)
      else
        var rest := Loop(st.room, sock, name, received[1..], dead);
        DeparturesAppend(st.departed, rest.departed, room.names.Keys, st.room, rest.room);
        Outcome(rest.room, st.out + rest.out, st.departed + rest.departed)
  }

  /** `handle_client` run to completion without interleaving: join, the
      message loop over `received`, then the `finally` removal with the
      name the dict holds at that point, or 'Unknown'. */
  function Session(room: Room, sock: Sock, firstText: string, received: seq<string>, dead: set<Sock>): (o: Outcome)
    ensures sock !in o.room.names
    ensures Inv(room) && sock !in room.clients ==> Inv(o.room)
    ensures Departures(o.departed, room.names.Keys + {sock}, o.room)
  {
    var name := Strip(firstText);
    var joined := Join(room, sock, firstText, dead);
    var body := Loop(joined.room, sock, name, received, dead);
    var last := RemoveClient(body.room, sock, NameOrUnknown(body.room, sock), dead);
    var known := room.names.Keys + {sock};
    DeparturesAppend(joined.departed, body.departed, known, joined.room, body.room);
    KnownDeparture(body.room, sock, NameOrUnknown(body.room, sock), last.departed, last.room);
    DeparturesAppend(joined.departed + body.departed, last.departed, known, body.room, last.room);
    Outcome(last.room, joined.Out() + body.out + last.Out(), joined.departed + body.departed + last.departed)
  }

  // ---------------------------------------------------------------------
  // Properties across calls

  /** The loop reads nothing after an empty text or "/종료": what follows
      is never handled. */
  lemma LoopStopsAtQuit(room: Room, sock: Sock, name: string, received: seq<string>, dead: set<Sock>)
    requires received != [] && (received[0] == [] || Strip(received[0]) == QuitCommand)
    ensures Loop(room, sock, name, received, dead) == Loop(room, sock, name, received[..1], dead)
  {
    assert received[..1][0] == received[0];
  }

  /** A chat text at the head of the loop is broadcast before anything
      else is sent: every other client whose send succeeds gets
      `"{name}> {text}\n"` once. */
  lemma LoopChatReachesOthers(room: Room, sock: Sock, name: string, received: seq<string>, dead: set<Sock>)
    requires Inv(room) && sock in room.names
    requires received != [] && received[0] != []
    requires Strip(received[0]) != QuitCommand && !StartsWith(Strip(received[0]), WhisperPrefix)
    ensures OpensWithFanout(Loop(room, sock, name, received, dead).out, room,
                            Frame(ChatLine(name, Strip(received[0]))), sock, dead)
  {
    var st := HandleText(room, sock, name, received[0], dead);
    var rest := Loop(st.room, sock, name, received[1..], dead);
    OpensWithFanoutExtend(st.out, rest.out, room, Frame(ChatLine(name, Strip(received[0]))), sock, dead);
  }

  /** A session opens by announcing the newcomer to every other client
      whose send succeeds, once each. */
  lemma SessionAnnouncesJoin(room: Room, sock: Sock, firstText: string, received: seq<string>, dead: set<Sock>)
    requires Inv(room) && sock !in room.clients
    ensures OpensWithFanout(Session(room, sock, firstText, received, dead).out, room,
                            Frame(JoinMessage(Strip(firstText))), sock, dead)
  {
    var joined := Join(room, sock, firstText, dead);
    var body := Loop(joined.room, sock, Strip(firstText), received, dead);
    var last := RemoveClient(body.room, sock, NameOrUnknown(body.room, sock), dead);
    var data := Frame(JoinMessage(Strip(firstText)));
    FanoutOpens(joined.direct, joined.cascade, room, data, sock, dead);
    OpensWithFanoutExtend(joined.Out(), body.out, room, data, sock, dead);
    OpensWithFanoutExtend(joined.Out() + body.out, last.Out(), room, data, sock, dead);
  }

  /** A client still listed when its loop ends (end of stream, not
      "/종료") is announced as leaving, in the `finally` removal, to every
      other client then present whose send succeeds. */
  lemma SessionSaysGoodbye(room: Room, sock: Sock, firstText: string, received: seq<string>, dead: set<Sock>)
    requires Inv(room) && sock !in room.clients && sock !in dead
    requires Strip(firstText) != Unknown
    ensures var joined := Join(room, sock, firstText, dead).room;
            var body := Loop(joined, sock, Strip(firstText), received, dead);
            var o := Session(room, sock, firstText, received, dead);
            sock in body.room.names ==>
              exists j :: 0 <= j <= |o.out| && OpensWithFanout(o.out[j..], body.room, Frame(Goodbye(Strip(firstText))), sock, dead)
  {
    var name := Strip(firstText);
    var joined := Join(room, sock, firstText, dead);
    var body := Loop(joined.room, sock, name, received, dead);
    var last := RemoveClient(body.room, sock, NameOrUnknown(body.room, sock), dead);
    var o := Session(room, sock, firstText, received, dead);
    if sock in body.room.names {
      assert NameOrUnknown(body.room, sock) == name;
      GoodbyeOpens(body.room, sock, name, dead);
      var j := |joined.Out() + body.out|;
      assert o.out[j..] == last.Out();
    }
  }

  /** A newcomer removed, and so closed, by the goodbye cascade of its own
      join reads no further text, and the `finally` removal finds no dict
      entry: the session sends nothing after the join. */
  lemma ClosedByJoinIsSilentAfter(room: Room, sock: Sock, firstText: string, received: seq<string>, dead: set<Sock>)
    requires sock !in Join(room, sock, firstText, dead).room.names
    ensures var joined := Join(room, sock, firstText, dead);
            var o := Session(room, sock, firstText, received, dead);
            o.out == joined.Out()
  {
    var joined := Join(room, sock, firstText, dead);
    var body := Loop(joined.room, sock, Strip(firstText), received, dead);
    assert body == Outcome(joined.room, [], []);
    assert NameOrUnknown(body.room, sock) == Unknown;
  }

  /** The same newcomer's session announces no departure after the join,
      so a goodbye the cascade said for it is not said again. */
  lemma ClosedByJoinDepartsNoMore(room: Room, sock: Sock, firstText: string, received: seq<string>, dead: set<Sock>)
    requires sock !in Join(room, sock, firstText, dead).room.names
    ensures var joined := Join(room, sock, firstText, dead);
            Session(room, sock, firstText, received, dead).departed == joined.departed
  {
    var joined := Join(room, sock, firstText, dead);
    var body := Loop(joined.room, sock, Strip(firstText), received, dead);
    assert body == Outcome(joined.room, [], []);
    assert NameOrUnknown(body.room, sock) == Unknown;
  }

  /** After "/종료" the `finally` removal finds no dict entry, passes
      'Unknown', and so sends nothing: no second goodbye follows. */
  lemma QuitThenFinallyIsSilent(room: Room, sock: Sock, name: string, received: string, dead: set<Sock>)
    requires Inv(room)
    requires received != [] && Strip(received) == QuitCommand
    ensures var st := HandleText(room, sock, name, received, dead);
            RemoveClient(st.room, sock, NameOrUnknown(st.room, sock), dead) == Fan(st.room, [], [], [])
  {
    var st := HandleText(room, sock, name, received, dead);
    assert sock !in st.room.names;
    assert sock !in st.room.clients;
    DetachAbsent(st.room, sock);
  }

  /** Detaching a socket the room does not hold changes nothing. */
  lemma DetachAbsent(room: Room, c: Sock)
    requires c !in room.clients && c !in room.names
    ensures Detach(room, c) == room
  {
    assert room.names - {c} == room.names;
  }

  /** Nothing stops two clients from joining under the same name: both
      stay listed, each with that name, so a whisper to it can reach only
      one of them. */
  lemma DuplicateNamesBothAdmitted(room: Room, a: Sock, b: Sock, text: string, dead: set<Sock>)
    requires Inv(room) && a !in room.clients && b !in room.clients && a != b
    requires a !in dead && b !in dead
    ensures var first := Join(room, a, text, dead).room;
            var second := Join(first, b, text, dead).room;
            && a in second.clients && b in second.clients
            && second.names[a] == Strip(text) && second.names[b] == Strip(text)
            && FindByName(second.clients, second.names, Strip(text)).Some?
  {
    var first := Join(room, a, text, dead).room;
    assert b !in first.clients;
  }
}
