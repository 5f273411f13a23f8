/** The name registry and per-connection session protocol of the threaded
    chat server in 0911/server.py.

    Each `with self._lock:` block is one atomic step, so the registry is a
    value and every operation is a pure function from the old registry to
    the new one plus the lines it sends. Socket I/O is abstract: a send to a
    peer in `dead` fails with `OSError`, every other send delivers one framed
    line. */
module RoomServer {
  import opened Options
  import opened Text
  import opened Seqs
  import opened Wire

  /** `_sock_by_name` and `_name_by_sock`. `names` is the key order of
      `_sock_by_name`: Python dicts iterate in insertion order, and that is
      the order `list(self._sock_by_name.values())` snapshots. */
  datatype Registry = Registry(
    names: seq<string>,
    sockByName: map<string, Sock>,
    nameBySock: map<Sock, string>)

  const EmptyRegistry := Registry([], map[], map[])

  // ---------------------------------------------------------------------
  // Wire strings

  const MaxNameLength := 20
  const QuitCommand := "/종료"
  const WhisperPrefix := "/w "
  const RejectNotice := "ERROR 닉네임이 중복되었거나 사용할 수 없습니다."
  const UsageHint := "안내: \"/종료\"로 종료, \"/w 대상닉 메시지\"는 귓속말입니다."
  const WhisperUsage := "안내: 사용법 -> /w 대상닉 메시지"

  function NotFoundNotice(target: string): string {
    "안내: \"" + target + "\" 사용자를 찾을 수 없습니다."
  }

  function JoinNotice(name: string): string {
    name + "님이 입장하셨습니다."
  }

  function LeaveNotice(name: string): string {
    name + "님이 퇴장하셨습니다."
  }

  function WhisperLine(sender: string, text: string): string {
    "(귓속말)" + sender + "> " + text
  }

  function ChatLine(name: string, line: string): string {
    name + "> " + line
  }

  // ---------------------------------------------------------------------
  // Line framing

  /** `_recv_line` on the unread part of the stream: `None` at end of
      stream, otherwise the next line without its newline and what
      follows it. A final line without a newline is returned as it is. */
  function RecvLine(stream: string): (r: Option<(string, string)>)
    ensures r.None? <==> stream == []
    ensures r.Some? ==> '\n' !in r.value.0
    ensures r.Some? ==> stream == Frame(r.value.0) + r.value.1
                        || (stream == r.value.0 && r.value.1 == [])
  {
    if stream == [] then None
    else
      var i := Find(stream, '\n');
      assert '\n' !in stream[..i];
      if i == |stream| then
        assert stream[..i] == stream;
        Some((stream, []))
      else
        assert stream == stream[..i] + "\n" + stream[i + 1..];
        Some((stream[..i], stream[i + 1..]))
  }

  /** Framing round trip: a line sent with `_send_line` is received back
      by `_recv_line` unchanged, whatever follows it on the stream. */
  lemma FrameRoundTrip(text: string, rest: string)
    requires '\n' !in text
    ensures RecvLine(Frame(text) + rest) == Some((text, rest))
  {
    var stream := Frame(text) + rest;
    var i := Find(stream, '\n');
    assert stream[|text|] == '\n';
    assert forall j :: 0 <= j < |text| ==> stream[j] == text[j];
    assert i == |text|;
    assert stream[..i] == text;
    assert stream[i + 1..] == rest;
  }

  // ---------------------------------------------------------------------
  // Registry

  /** `_sock_by_name.get(name)`. */
  function Lookup(r: Registry, name: string): Option<Sock> {
    if name in r.sockByName then Some(r.sockByName[name]) else None
  }

  /** `_name_by_sock.get(sock)`. */
  function NameOf(r: Registry, sock: Sock): Option<string> {
    if sock in r.nameBySock then Some(r.nameBySock[sock]) else None
  }

  /** The name rule of `_register_name`: non-empty, no ' ' character, at
      most 20 characters. */
  predicate ValidName(name: string) {
    name != [] && ' ' !in name && |name| <= MaxNameLength
  }

  /** The registry invariant: the two maps are mutually inverse, the key
      order lists each registered name once, and only valid names are
      registered. */
  ghost predicate Inv(r: Registry) {
    && NoDup(r.names)
    && (forall n :: n in r.sockByName <==> n in r.names)
    && (forall n :: n in r.sockByName ==>
          r.sockByName[n] in r.nameBySock && r.nameBySock[r.sockByName[n]] == n)
    && (forall s :: s in r.nameBySock ==>
          r.nameBySock[s] in r.sockByName && r.sockByName[r.nameBySock[s]] == s)
    && (forall n :: n in r.sockByName ==> ValidName(n))
  }

  /** `r'` holds no entry that `r` did not hold: the registry only loses
      entries. */
  ghost predicate Shrinks(r: Registry, r': Registry) {
    && (forall s :: s in r'.nameBySock ==> s in r.nameBySock && r'.nameBySock[s] == r.nameBySock[s])
    && (forall n :: n in r'.sockByName ==> n in r.sockByName && r'.sockByName[n] == r.sockByName[n])
  }

  lemma EmptyInv()
    ensures Inv(EmptyRegistry)
  {
  }

  /** Under the invariant, the name map and the socket map agree entry by
      entry: `_name_by_sock[s] == n` exactly when `_sock_by_name[n] == s`. */
  lemma InvMutuallyInverse(r: Registry, s: Sock, n: string)
    requires Inv(r)
    ensures NameOf(r, s) == Some(n) <==> Lookup(r, n) == Some(s)
  {
  }

  datatype Registration = Registration(reg: Registry, ok: bool)

  /** `_register_name(sock, name)`. It succeeds exactly when the name is
      valid and not taken; a refusal changes nothing, and a success binds
      the name and the socket to each other and touches no other entry. */
  function Register(r: Registry, sock: Sock, name: string): (res: Registration)
    ensures res.ok <==> ValidName(name) && Lookup(r, name).None?
    ensures !res.ok ==> res.reg == r
    ensures res.ok ==> Lookup(res.reg, name) == Some(sock) && NameOf(res.reg, sock) == Some(name)
    ensures res.ok ==> forall n :: n != name ==> Lookup(res.reg, n) == Lookup(r, n)
    ensures res.ok ==> forall s :: s != sock ==> NameOf(res.reg, s) == NameOf(r, s)
    ensures res.ok ==> res.reg.names == r.names + [name]
    ensures Inv(r) && NameOf(r, sock).None? ==> Inv(res.reg)
  {
    if !ValidName(name) then Registration(r, false)
    else if name in r.sockByName then Registration(r, false)
    else
      Registration(
        Registry(r.names + [name], r.sockByName[name := sock], r.nameBySock[sock := name]),
        true)
  }

  /** Registering a name that is already taken fails, whichever socket
      asks: of two registrations of one name, at most one succeeds. */
  lemma SecondRegistrationFails(r: Registry, s1: Sock, s2: Sock, name: string)
    requires Register(r, s1, name).ok
    ensures !Register(Register(r, s1, name).reg, s2, name).ok
    ensures Register(Register(r, s1, name).reg, s2, name).reg == Register(r, s1, name).reg
  {
  }

  /** Two different valid, free names can both be registered, in either
      order, by two different fresh sockets. */
  lemma DistinctNamesBothRegister(r: Registry, s1: Sock, s2: Sock, n1: string, n2: string)
    requires Inv(r)
    requires s1 != s2 && NameOf(r, s1).None? && NameOf(r, s2).None?
    requires n1 != n2 && ValidName(n1) && ValidName(n2)
    requires Lookup(r, n1).None? && Lookup(r, n2).None?
    ensures Register(r, s1, n1).ok && Register(Register(r, s1, n1).reg, s2, n2).ok
    ensures Inv(Register(Register(r, s1, n1).reg, s2, n2).reg)
  {
  }

  /** `_cleanup_socket(sock)`: drop the socket's entry from both maps.
      Afterwards the socket has no name and, under the invariant, its old
      name is free again; every other socket keeps its name, and a socket
      that had no entry leaves the registry as it was. */
  function Cleanup(r: Registry, sock: Sock): (r': Registry)
    ensures NameOf(r', sock).None?
    ensures forall s :: s != sock ==> NameOf(r', s) == NameOf(r, s)
    ensures NameOf(r, sock).None? ==> r' == r
    ensures Shrinks(r, r')
    ensures Inv(r) ==> Inv(r')
    ensures Inv(r) && sock in r.nameBySock ==> Lookup(r', r.nameBySock[sock]).None?
  {
    CleanupKeepsInv(r, sock);
    CleanupBody(r, sock)
  }

  function CleanupBody(r: Registry, sock: Sock): Registry {
    if sock !in r.nameBySock then r
    else
      var name := r.nameBySock[sock];
      var nbs := r.nameBySock - {sock};
      if name != [] then
        Registry(RemoveFirst(r.names, name), r.sockByName - {name}, nbs)
      else
        Registry(r.names, r.sockByName, nbs)
  }

  lemma CleanupKeepsInv(r: Registry, sock: Sock)
    ensures Inv(r) ==> Inv(CleanupBody(r, sock))
    ensures Inv(r) && sock in r.nameBySock ==> Lookup(CleanupBody(r, sock), r.nameBySock[sock]).None?
  {
    if Inv(r) && sock in r.nameBySock {
      var name := r.nameBySock[sock];
      var r' := CleanupBody(r, sock);
      assert r'.names == RemoveFirst(r.names, name);
      assert r'.sockByName == r.sockByName - {name};
      assert r'.nameBySock == r.nameBySock - {sock};
      assert r.sockByName[name] == sock;
    }
  }

  /** Cleanup is idempotent: a second cleanup of the same socket changes
      nothing. */
  lemma CleanupIdempotent(r: Registry, sock: Sock)
    ensures Cleanup(Cleanup(r, sock), sock) == Cleanup(r, sock)
  {
  }

  // ---------------------------------------------------------------------
  // Snapshot and broadcast

  /** The values of `m` taken in the key order `ns`. */
  function ValuesInOrder(ns: seq<string>, m: map<string, Sock>): (vs: seq<Sock>)
    ensures forall s :: s in vs ==> exists n :: n in ns && n in m && m[n] == s
    ensures forall n :: n in ns && n in m ==> m[n] in vs
    decreases |ns|
  {
    if ns == [] then []
    else
      var rest := ValuesInOrder(ns[1..], m);
      assert forall n :: n in ns[1..] ==> n in ns;
      assert forall n :: n in ns ==> n == ns[0] || n in ns[1..];
      if ns[0] in m then [m[ns[0]]] + rest else rest
  }

  /** `ValuesInOrder` lists no socket twice when the names are distinct
      and bound to distinct sockets. */
  lemma {:induction false} ValuesInOrderNoDup(ns: seq<string>, m: map<string, Sock>)
    requires NoDup(ns)
    requires forall a, b :: a in m && b in m && a != b ==> m[a] != m[b]
    ensures NoDup(ValuesInOrder(ns, m))
    decreases |ns|
  {
    if ns != [] {
      var rest := ValuesInOrder(ns[1..], m);
      assert NoDup(ns[1..]) by {
        forall i, j | 0 <= i < j < |ns[1..]|
          ensures ns[1..][i] != ns[1..][j]
        {
          assert ns[1..][i] == ns[i + 1] && ns[1..][j] == ns[j + 1];
        }
      }
      ValuesInOrderNoDup(ns[1..], m);
      if ns[0] in m {
        assert forall k :: 0 <= k < |ns[1..]| ==> ns[1..][k] == ns[k + 1] != ns[0];
        assert forall n :: n in ns[1..] && n in m ==> m[n] != m[ns[0]];
        assert m[ns[0]] !in rest;
        var vs := [m[ns[0]]] + rest;
        forall i, j | 0 <= i < j < |vs|
          ensures vs[i] != vs[j]
        {
          if i == 0 {
            assert vs[j] == rest[j - 1];
          } else {
            assert vs[i] == rest[i - 1] && vs[j] == rest[j - 1];
          }
        }
      }
    }
  }

  /** `list(self._sock_by_name.values())`: under the invariant it lists
      every registered socket exactly once. */
  function Snapshot(r: Registry): (socks: seq<Sock>)
    ensures Inv(r) ==> forall s :: s in socks <==> s in r.nameBySock
    ensures Inv(r) ==> NoDup(socks)
  {
    SnapshotFacts(r);
    ValuesInOrder(r.names, r.sockByName)
  }

  lemma SnapshotFacts(r: Registry)
    ensures Inv(r) ==> forall s :: s in ValuesInOrder(r.names, r.sockByName) <==> s in r.nameBySock
    ensures Inv(r) ==> NoDup(ValuesInOrder(r.names, r.sockByName))
  {
    if Inv(r) {
      assert forall s :: s in r.nameBySock ==> r.nameBySock[s] in r.names;
      ValuesInOrderNoDup(r.names, r.sockByName);
    }
  }

  datatype Delivery = Delivery(reg: Registry, out: seq<Send>)

  /** A socket the fan-out gives up on: listed, not excluded, and its send
      fails. */
  predicate Dropped(socks: seq<Sock>, exclude: Option<Sock>, dead: set<Sock>, s: Sock) {
    s in socks && exclude != Some(s) && s in dead
  }

  /** The loop of `_broadcast` over a snapshot: send `data` to every listed
      socket but `exclude`; a failed send cleans that socket up and the
      loop carries on with the rest. Exactly the listed live sockets other
      than `exclude` receive `data`, once each when the list has no
      repeats; exactly the dropped ones lose their registration. */
  function Fanout(r: Registry, socks: seq<Sock>, data: string, exclude: Option<Sock>, dead: set<Sock>): (d: Delivery)
    ensures forall i :: 0 <= i < |d.out| ==> d.out[i].data == data
    ensures forall s :: s in Recipients(d.out) <==> s in socks && exclude != Some(s) && s !in dead
    ensures NoDup(socks) ==> NoDup(Recipients(d.out))
    ensures forall s :: NameOf(d.reg, s) == if Dropped(socks, exclude, dead, s) then None else NameOf(r, s)
    ensures Shrinks(r, d.reg)
    ensures Inv(r) ==> Inv(d.reg)
    decreases |socks|
  {
    if socks == [] then Delivery(r, [])
    else
      var s := socks[0];
      assert forall t :: t in socks <==> t == s || t in socks[1..];
      assert NoDup(socks) ==> NoDup(socks[1..]) && s !in socks[1..] by {
        if NoDup(socks) {
          forall i, j | 0 <= i < j < |socks[1..]|
            ensures socks[1..][i] != socks[1..][j]
          {
            assert socks[1..][i] == socks[i + 1] && socks[1..][j] == socks[j + 1];
          }
          assert forall k :: 0 <= k < |socks[1..]| ==> socks[1..][k] == socks[k + 1] != s;
        }
      }
      if exclude == Some(s) then
        Fanout(r, socks[1..], data, exclude, dead)
      else if s in dead then
        Fanout(Cleanup(r, s), socks[1..], data, exclude, dead)
      else
        var rest := Fanout(r, socks[1..], data, exclude, dead);
        var out := [Send(s, data)] + rest.out;
        assert out[1..] == rest.out;
        Delivery(rest.reg, out)
  }

  /** `_broadcast(text, exclude)`: under the invariant, every registered
      socket except `exclude` whose send does not fail receives
      `text + '\n'` exactly once, nobody else receives anything, and the
      sockets whose send failed are cleaned up while every other
      registration is kept. */
  function Broadcast(r: Registry, text: string, exclude: Option<Sock>, dead: set<Sock>): (d: Delivery)
    ensures forall i :: 0 <= i < |d.out| ==> d.out[i].data == Frame(text)
    ensures Inv(r) ==> forall s :: s in Recipients(d.out) <==>
                         s in r.nameBySock && exclude != Some(s) && s !in dead
    ensures Inv(r) ==> NoDup(Recipients(d.out))
    ensures Inv(r) ==> forall s :: NameOf(d.reg, s) ==
                         if s in r.nameBySock && exclude != Some(s) && s in dead then None else NameOf(r, s)
    ensures Shrinks(r, d.reg)
    ensures Inv(r) ==> Inv(d.reg)
  {
    Fanout(r, Snapshot(r), Frame(text), exclude, dead)
  }

  // ---------------------------------------------------------------------
  // Whisper

  datatype WhisperResult = WhisperResult(reg: Registry, out: seq<Send>, delivered: bool)

  /** `_whisper(toName, text, sender)`: an unregistered target gets
      nothing and changes nothing; a registered live target gets exactly
      the whisper line and nobody else gets anything; a registered target
      whose send fails is cleaned up. */
  function Whisper(r: Registry, toName: string, text: string, sender: string, dead: set<Sock>): (w: WhisperResult)
    ensures w.delivered <==> toName in r.sockByName && r.sockByName[toName] !in dead
    ensures w.delivered ==> w.reg == r && w.out == [Send(r.sockByName[toName], Frame(WhisperLine(sender, text)))]
    ensures !w.delivered ==> w.out == []
    ensures toName !in r.sockByName ==> w.reg == r
    ensures toName in r.sockByName && r.sockByName[toName] in dead ==> w.reg == Cleanup(r, r.sockByName[toName])
    ensures Shrinks(r, w.reg)
    ensures Inv(r) ==> Inv(w.reg)
  {
    match Lookup(r, toName)
    case None => WhisperResult(r, [], false)
    case Some(target) =>
      if target in dead then WhisperResult(Cleanup(r, target), [], false)
      else WhisperResult(r, [Send(target, Frame(WhisperLine(sender, text)))], true)
  }

  // ---------------------------------------------------------------------
  // Line dispatch

  datatype Command =
    | Quit
    | BadWhisper
    | WhisperTo(target: string, body: string)
    | Chat(line: string)

  /** The classification in the message loop of `_handle_client`: exactly
      "/종료" quits; a line starting with "/w " is a whisper, split at its
      first two spaces, and a usage error when it has no second space;
      anything else, the empty line included, is chat. */
  function Classify(line: string): (c: Command)
    ensures c.Quit? <==> line == QuitCommand
    ensures c.Chat? <==> line != QuitCommand && !StartsWith(line, WhisperPrefix)
    ensures c.Chat? ==> c.line == line
    ensures c.BadWhisper? <==> StartsWith(line, WhisperPrefix) && ' ' !in line[|WhisperPrefix|..]
    ensures c.WhisperTo? ==> line == WhisperPrefix + c.target + " " + c.body && ' ' !in c.target
  {
    assert QuitCommand[1] != WhisperPrefix[1];
    if line == QuitCommand then Quit
    else if StartsWith(line, WhisperPrefix) then
      var parts := SplitMax2(line, ' ');
      WhisperHead(line, parts);
      if |parts| < 3 then BadWhisper
      else WhisperTo(parts[1], parts[2])
    else Chat(line)
  }

  /** How `split(' ', 2)` cuts a line that starts with "/w ". */
  lemma WhisperHead(line: string, parts: seq<string>)
    requires StartsWith(line, WhisperPrefix)
    requires parts == SplitMax2(line, ' ')
    ensures |parts| >= 2 && parts[0] == "/w"
    ensures |parts| == 2 ==> parts[1] == line[3..] && ' ' !in line[3..]
    ensures |parts| == 3 ==> line[3..] == parts[1] + " " + parts[2]
  {
    assert line[0] == '/' && line[1] == 'w' && line[2] == ' ';
    assert ' ' in line;
    assert |parts| >= 2;
    assert Join(parts, " ") == parts[0] + " " + Join(parts[1..], " ");
    var p0 := parts[0];
    assert line == p0 + " " + Join(parts[1..], " ");
    assert forall j :: 0 <= j < |p0| ==> line[j] == p0[j] != ' ';
    assert line[|p0|] == ' ';
    assert |p0| == 2;
    assert p0 == line[..2];
    assert line[3..] == Join(parts[1..], " ");
    if |parts| == 3 {
      assert parts[1..] == [parts[1], parts[2]];
    }
  }

  datatype Step = Step(reg: Registry, out: seq<Send>, goOn: bool)

  /** Send to the session's own socket inside the message loop: a failure
      raises out of the loop, so the loop stops. */
  function Notify(r: Registry, sock: Sock, text: string, dead: set<Sock>): (st: Step)
    ensures st.reg == r
    ensures st.goOn <==> sock !in dead
    ensures st.out == if sock in dead then [] else [Send(sock, Frame(text))]
  {
    if sock in dead then Step(r, [], false) else Step(r, [Send(sock, Frame(text))], true)
  }

  /** One pass of the message loop for the line `line` from `sock`,
      registered as `name`. Quit stops and sends nothing. A malformed
      whisper or an unknown target yields one notice to the sender only.
      A whisper to a live target reaches that target only. A chat line
      reaches every other live registered socket and not the sender. */
  function HandleLine(r: Registry, sock: Sock, name: string, line: string, dead: set<Sock>): (st: Step)
    ensures Classify(line).Quit? ==> st == Step(r, [], false)
    ensures Classify(line).BadWhisper? ==> st == Notify(r, sock, WhisperUsage, dead)
    ensures Classify(line).WhisperTo? && Classify(line).target !in r.sockByName ==>
              st == Notify(r, sock, NotFoundNotice(Classify(line).target), dead)
    ensures Classify(line).WhisperTo? && Classify(line).target in r.sockByName
            && r.sockByName[Classify(line).target] !in dead ==>
              st.goOn && st.reg == r
              && st.out == [Send(r.sockByName[Classify(line).target],
                                 Frame(WhisperLine(name, Classify(line).body)))]
    ensures Classify(line).WhisperTo? && Classify(line).target in r.sockByName
            && r.sockByName[Classify(line).target] in dead ==>
              st == Notify(Cleanup(r, r.sockByName[Classify(line).target]), sock,
                           NotFoundNotice(Classify(line).target), dead)
    ensures Classify(line).Chat? ==> st.goOn
    ensures Classify(line).Chat? ==> forall i :: 0 <= i < |st.out| ==> st.out[i].data == Frame(ChatLine(name, line))
    ensures Classify(line).Chat? && Inv(r) ==>
              forall s :: s in Recipients(st.out) <==> s in r.nameBySock && s != sock && s !in dead
    ensures Classify(line).Chat? && Inv(r) ==>
              forall s :: NameOf(st.reg, s) == if s in r.nameBySock && s != sock && s in dead then None else NameOf(r, s)
    ensures Shrinks(r, st.reg)
    ensures Inv(r) ==> Inv(st.reg)
  {
    match Classify(line)
    case Quit => Step(r, [], false)
    case BadWhisper => Notify(r, sock, WhisperUsage, dead)
    case WhisperTo(target, body) =>
      var w := Whisper(r, target, body, name, dead);
      if w.delivered then Step(w.reg, w.out, true)
      else Notify(w.reg, sock, NotFoundNotice(target), dead)
    case Chat(text) =>
      var b := Broadcast(r, ChatLine(name, text), Some(sock), dead);
      Step(b.reg, b.out, true)
  }

  /** The message loop: handle lines until one stops it or the stream ends
      (end of stream and a reset both end it). The registry only loses
      entries and keeps its invariant. */
  function Loop(r: Registry, sock: Sock, name: string, lines: seq<string>, dead: set<Sock>): (d: Delivery)
    ensures Shrinks(r, d.reg)
    ensures Inv(r) ==> Inv(d.reg)
    decreases |lines|
  {
    if lines == [] then Delivery(r, [])
    else
      var st := HandleLine(r, sock, name, lines[0], dead);
      if !st.goOn then Delivery(st.reg, st.out)
      else
        var rest := Loop(st.reg, sock, name, lines[1..], dead);
        Delivery(rest.reg, st.out + rest.out)
  }

  // ---------------------------------------------------------------------
  // Session

  /** What one connection's handler sends, phase by phase. */
  datatype Transcript =
    | Rejected(reg: Registry, notice: seq<Send>)
    | Served(reg: Registry, join: seq<Send>, hint: seq<Send>, body: seq<Send>, leave: seq<Send>)
  {
    /** Every line sent, in the order the handler sends them. */
    function Out(): seq<Send> {
      match this
      case Rejected(_, notice) => notice
      case Served(_, join, hint, body, leave) => join + hint + body + leave
    }
  }

  /** `_handle_client(sock)` run to completion without interleaving: the
      first line is the name (`None` is end of stream), the later lines are
      `lines`, then the stream ends. */
  function Session(r: Registry, sock: Sock, first: Option<string>, lines: seq<string>, dead: set<Sock>): (t: Transcript)
    ensures t.Rejected? <==> first.None? || !Register(r, sock, first.value).ok
    ensures Inv(r) && NameOf(r, sock).None? ==> Inv(t.reg)
  {
    if first.None? || !Register(r, sock, first.value).ok then
      var notice := if sock in dead then [] else [Send(sock, Frame(RejectNotice))];
      Rejected(Cleanup(r, sock), notice)
    else
      var name := first.value;
      var joined := Register(r, sock, name).reg;
      var join := Broadcast(joined, JoinNotice(name), None, dead);
      if sock in dead then
        Served(Cleanup(join.reg, sock), join.out, [], [], [])
      else
        var body := Loop(join.reg, sock, name, lines, dead);
        var closed := Cleanup(body.reg, sock);
        var leave := Broadcast(closed, LeaveNotice(name), None, dead);
        Served(leave.reg, join.out, [Send(sock, Frame(UsageHint))], body.out, leave.out)
  }

  /** A rejected first line (end of stream, invalid or taken name) sends at
      most one line, the rejection notice, to that socket alone, and leaves
      the registry as it was: there is no join and no leave announcement. */
  lemma RejectedSessionIsSilent(r: Registry, sock: Sock, first: Option<string>, lines: seq<string>, dead: set<Sock>)
    requires NameOf(r, sock).None?
    requires first.None? || !ValidName(first.value) || Lookup(r, first.value).Some?
    ensures var t := Session(r, sock, first, lines, dead);
      && t.Rejected?
      && t.reg == r
      && t.Out() == (if sock in dead then [] else [Send(sock, Frame(RejectNotice))])
  {
  }

  /** After a successful registration the join announcement goes to every
      live registered socket, the newcomer included, once each. */
  lemma JoinReachesEveryone(r: Registry, sock: Sock, name: string, lines: seq<string>, dead: set<Sock>)
    requires Inv(r) && NameOf(r, sock).None?
    requires ValidName(name) && Lookup(r, name).None?
    ensures var t := Session(r, sock, Some(name), lines, dead);
      && t.Served?
      && (forall i :: 0 <= i < |t.join| ==> t.join[i].data == Frame(JoinNotice(name)))
      && (forall s :: s in Recipients(t.join) <==> (s in r.nameBySock || s == sock) && s !in dead)
      && NoDup(Recipients(t.join))
  {
    var joined := Register(r, sock, name).reg;
    assert forall s :: s in joined.nameBySock <==> s in r.nameBySock || s == sock;
  }

  /** When the session ends, its socket and its name are both gone from the
      registry. A newcomer whose socket works gets the usage hint, and the
      leave announcement, sent after the cleanup, reaches exactly the
      sockets still registered at the end, once each, so never the leaver.
      A newcomer whose socket fails straight away is cleaned up with no
      usage hint, no message loop and no leave announcement. */
  lemma SessionEndReleasesName(r: Registry, sock: Sock, name: string, lines: seq<string>, dead: set<Sock>)
    requires Inv(r) && NameOf(r, sock).None?
    requires ValidName(name) && Lookup(r, name).None?
    ensures var t := Session(r, sock, Some(name), lines, dead);
      && t.Served?
      && Inv(t.reg)
      && NameOf(t.reg, sock).None?
      && Lookup(t.reg, name).None?
      && sock !in Recipients(t.leave)
      && (forall i :: 0 <= i < |t.leave| ==> t.leave[i].data == Frame(LeaveNotice(name)))
      && (sock in dead ==> t.hint == [] && t.body == [] && t.leave == [])
      && (sock !in dead ==> t.hint == [Send(sock, Frame(UsageHint))])
      && (sock !in dead ==> (forall s :: s in Recipients(t.leave) <==> s in t.reg.nameBySock)
                            && NoDup(Recipients(t.leave)))
  {
    var joined := Register(r, sock, name).reg;
    var join := Broadcast(joined, JoinNotice(name), None, dead);
    assert Inv(joined);
    assert Lookup(joined, name) == Some(sock);
    if sock in dead {
      assert Inv(join.reg);
      CleanupReleases(join.reg, sock, name);
    } else {
      var body := Loop(join.reg, sock, name, lines, dead);
      assert Shrinks(joined, body.reg);
      var closed := Cleanup(body.reg, sock);
      CleanupReleases(body.reg, sock, name);
      assert Inv(closed);
      BroadcastReachesSurvivors(closed, LeaveNotice(name), dead);
    }
  }

  /** A broadcast that excludes nobody reaches exactly the sockets still
      registered after it, once each: the failed ones are the ones cleaned
      up. */
  lemma BroadcastReachesSurvivors(r: Registry, text: string, dead: set<Sock>)
    requires Inv(r)
    ensures var d := Broadcast(r, text, None, dead);
            && (forall s :: s in Recipients(d.out) <==> s in d.reg.nameBySock)
            && NoDup(Recipients(d.out))
  {
    var d := Broadcast(r, text, None, dead);
    forall s
      ensures s in Recipients(d.out) <==> s in d.reg.nameBySock
    {
      assert NameOf(d.reg, s) == if s in r.nameBySock && s in dead then None else NameOf(r, s);
    }
  }

  /** Cleaning up a socket frees every name that was only ever bound to
      it. */
  lemma CleanupReleases(r: Registry, sock: Sock, name: string)
    requires Inv(r)
    requires name in r.sockByName ==> r.sockByName[name] == sock
    ensures Lookup(Cleanup(r, sock), name).None?
  {
  }
}
