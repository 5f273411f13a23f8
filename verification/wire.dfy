/** What both chat servers put on the wire: a socket identity and one
    newline-terminated line delivered to it. */
module Wire {

  /** A connected socket, compared by identity. */
  type Sock = nat

  /** One send that reached its peer; `data` is the framed line. */
  datatype Send = Send(to: Sock, data: string)

  /** Both servers terminate every outbound message with one newline
      (`text + '\n'` in `_send_line` and in `broadcast_message`). */
  function Frame(text: string): string {
    text + "\n"
  }

  /** The sockets the sends went to, in order. */
  function Recipients(out: seq<Send>): seq<Sock> {
    if out == [] then [] else [out[0].to] + Recipients(out[1..])
  }

  lemma RecipientsAppend(a: seq<Send>, b: seq<Send>)
    ensures Recipients(a + b) == Recipients(a) + Recipients(b)
  {
    if a != [] {
      assert (a + b)[1..] == a[1..] + b;
      RecipientsAppend(a[1..], b);
    } else {
      assert a + b == b;
    }
  }
}
