/** The request handling of the single-page HTTP server 0918/server.py: the
    private-address test that decides whether a client's location is looked
    up, the routing of GET paths, and the responses it writes, whose
    Content-Length always states the length of the body.

    Address text is taken already parsed (an IPv4 or IPv6 value, or not an
    address at all); the location service's answer and the index file's
    state are parameters. */
module StaticHttp {
  import opened Options
  import opened Decimal

  // ---------------------------------------------------------------------
  // is_private_ip

  const V4Size := 0x1_0000_0000
  const V6Size := 0x1_0000_0000_0000_0000_0000_0000_0000_0000

  type U32 = n: nat | n < V4Size
  type U128 = n: nat | n < V6Size

  /** The result of `ip_address(text)`: a version-4 or version-6 address
      as its integer value, or the `ValueError` case. */
  datatype Address = V4(v4: U32) | V6(v6: U128) | Unparsable

  /** An `ip_network(...)`: version, network address and the number of
      addresses the prefix leaves (2 to the power of the host bits). */
  datatype Network = Network(v6: bool, base: nat, size: nat)

  /** `addr in net`: the same version, and the same leading bits as the
      network address. An address never lies in a network of the other
      version. */
  predicate InNetwork(a: Address, net: Network)
    requires net.size > 0
  {
    match a
    case V4(n) => !net.v6 && n / net.size == net.base / net.size
    case V6(n) => net.v6 && n / net.size == net.base / net.size
    case Unparsable => false
  }

  /** The eight networks `is_private_ip` lists, in its order. */
  const PrivateNets: seq<Network> := [
    Network(false, 0x0A00_0000, 0x100_0000),   // 10.0.0.0/8
    Network(false, 0xAC10_0000, 0x10_0000),    // 172.16.0.0/12
    Network(false, 0xC0A8_0000, 0x1_0000),     // 192.168.0.0/16
    Network(false, 0x7F00_0000, 0x100_0000),   // 127.0.0.0/8
    Network(false, 0xA9FE_0000, 0x1_0000),     // 169.254.0.0/16
    Network(true, 1, 1),                       // ::1/128
    Network(true, 0xFC00_0000_0000_0000_0000_0000_0000_0000,
                  0x200_0000_0000_0000_0000_0000_0000_0000),   // fc00::/7
    Network(true, 0xFE80_0000_0000_0000_0000_0000_0000_0000,
                  0x40_0000_0000_0000_0000_0000_0000_0000)     // fe80::/10
  ]

  predicate WellFormedNets(nets: seq<Network>) {
    forall i :: 0 <= i < |nets| ==> nets[i].size > 0
  }

  /** `any(addr in net for net in nets)`. */
  predicate AnyContains(nets: seq<Network>, a: Address)
    requires WellFormedNets(nets)
  {
    exists i :: 0 <= i < |nets| && InNetwork(a, nets[i])
  }

  /** `is_private_ip(ip)`: text that is not an address counts as private;
      otherwise private means lying in one of the listed networks. */
  function IsPrivate(a: Address): (b: bool)
    ensures a.Unparsable? ==> b
  {
    a.Unparsable? || AnyContains(PrivateNets, a)
  }

  /** Integer division by a positive constant, as a range. */
  lemma DivIs(n: nat, d: nat, q: nat)
    requires d > 0
    ensures n / d == q <==> q * d <= n < q * d + d
  {
    var p := n / d;
    assert p * d <= n < p * d + d;
    if q * d <= n < q * d + d {
      MulMono(p + 1, q, d);
      MulMono(q + 1, p, d);
    }
  }

  lemma MulMono(a: int, b: int, d: nat)
    ensures a <= b ==> a * d <= b * d
  {
    assert b * d == a * d + (b - a) * d;
  }

  /** The first and second octets of a version-4 address. */
  function Octet1(n: U32): nat { n / 0x100_0000 }
  function Octet2(n: U32): nat { (n / 0x1_0000) % 0x100 }

  /** The leading two octets, read as one number, fix both octets. */
  lemma TwoOctets(n: U32)
    ensures n / 0x1_0000 == Octet1(n) * 0x100 + Octet2(n)
  {
    var m := n / 0x1_0000;
    DivIs(n, 0x1_0000, m);
    DivIs(n, 0x100_0000, m / 0x100);
    assert m == (m / 0x100) * 0x100 + m % 0x100;
  }

  /** The version-4 private blocks by octet: 10/8, 172.16/12, 192.168/16
      (section 3 of RFC 1918), 127/8 and 169.254/16 (section 2.2.2 of
      RFC 6890). */
  lemma PrivateV4(n: U32)
    ensures IsPrivate(V4(n)) <==>
              || Octet1(n) == 10
              || (Octet1(n) == 172 && 16 <= Octet2(n) < 32)
              || (Octet1(n) == 192 && Octet2(n) == 168)
              || Octet1(n) == 127
              || (Octet1(n) == 169 && Octet2(n) == 254)
  {
    var a := V4(n);
    var m := n / 0x1_0000;
    TwoOctets(n);
    DivIs(n, 0x10_0000, 0xAC1);
    DivIs(n, 0x1_0000, m);
    assert n / 0x10_0000 == 0xAC1 <==> 0xAC10 <= m < 0xAC20;
    assert AnyContains(PrivateNets, a) <==>
      || InNetwork(a, PrivateNets[0]) || InNetwork(a, PrivateNets[1]) || InNetwork(a, PrivateNets[2])
      || InNetwork(a, PrivateNets[3]) || InNetwork(a, PrivateNets[4]) || InNetwork(a, PrivateNets[5])
      || InNetwork(a, PrivateNets[6]) || InNetwork(a, PrivateNets[7]);
  }

  /** The version-6 private blocks: exactly ::1, fc00::/7 and fe80::/10
      (section 2.2.3 of RFC 6890), the last two read off the leading 7 and
      10 bits. */
  lemma PrivateV6(n: U128)
    ensures IsPrivate(V6(n)) <==>
              || n == 1
              || n / 0x200_0000_0000_0000_0000_0000_0000_0000 == 0x7E
              || n / 0x40_0000_0000_0000_0000_0000_0000_0000 == 0x3FA
  {
    var a := V6(n);
    assert AnyContains(PrivateNets, a) <==>
      || InNetwork(a, PrivateNets[0]) || InNetwork(a, PrivateNets[1]) || InNetwork(a, PrivateNets[2])
      || InNetwork(a, PrivateNets[3]) || InNetwork(a, PrivateNets[4]) || InNetwork(a, PrivateNets[5])
      || InNetwork(a, PrivateNets[6]) || InNetwork(a, PrivateNets[7]);
  }

  /** The edges of 172.16.0.0/12: its last address is private, the next
      one is not. */
  lemma Block172Edges()
    ensures IsPrivate(V4(0xAC1F_FFFF))     // 172.31.255.255
    ensures !IsPrivate(V4(0xAC20_0000))    // 172.32.0.0
  {
    PrivateV4(0xAC1F_FFFF);
    PrivateV4(0xAC20_0000);
  }

  // ---------------------------------------------------------------------
  // Responses

  type Byte = b: nat | b < 256

  /** The UTF-8 bytes of one character: one byte below 0x80, otherwise a
      lead byte that announces the length followed by continuation bytes
      of six bits each, which together spell the code point back. */
  function Utf8Char(c: char): (bs: seq<Byte>)
    ensures 1 <= |bs| <= 4
    ensures c as int < 0x80 ==> bs == [c as int]
    ensures 0x80 <= c as int < 0x800 ==>
              && |bs| == 2 && 0xC2 <= bs[0] < 0xE0 && 0x80 <= bs[1] < 0xC0
              && (bs[0] as int - 0xC0) * 0x40 + (bs[1] as int - 0x80) == c as int
    ensures 0x800 <= c as int < 0x1_0000 ==>
              && |bs| == 3 && 0xE0 <= bs[0] < 0xF0 && 0x80 <= bs[1] < 0xC0 && 0x80 <= bs[2] < 0xC0
              && (bs[0] as int - 0xE0) * 0x1000 + (bs[1] as int - 0x80) * 0x40 + (bs[2] as int - 0x80) == c as int
    ensures 0x1_0000 <= c as int ==>
              && |bs| == 4 && 0xF0 <= bs[0] < 0xF5 && 0x80 <= bs[1] < 0xC0 && 0x80 <= bs[2] < 0xC0 && 0x80 <= bs[3] < 0xC0
              && (bs[0] as int - 0xF0) * 0x4_0000 + (bs[1] as int - 0x80) * 0x1000 + (bs[2] as int - 0x80) * 0x40 + (bs[3] as int - 0x80) == c as int
  {
    var cp := c as int;
    SixBitGroups(cp);
    if cp < 0x80 then [cp]
    else if cp < 0x800 then [0xC0 + cp / 0x40, 0x80 + cp % 0x40]
    else if cp < 0x1_0000 then [0xE0 + cp / 0x1000, 0x80 + (cp / 0x40) % 0x40, 0x80 + cp % 0x40]
    else [0xF0 + cp / 0x4_0000, 0x80 + (cp / 0x1000) % 0x40, 0x80 + (cp / 0x40) % 0x40, 0x80 + cp % 0x40]
  }

  /** A code point cut into six-bit groups, lowest group last. */
  lemma SixBitGroups(cp: int)
    requires 0 <= cp
    ensures cp == (cp / 0x40) * 0x40 + cp % 0x40
    ensures cp == (cp / 0x1000) * 0x1000 + ((cp / 0x40) % 0x40) * 0x40 + cp % 0x40
    ensures cp == (cp / 0x4_0000) * 0x4_0000 + ((cp / 0x1000) % 0x40) * 0x1000 + ((cp / 0x40) % 0x40) * 0x40 + cp % 0x40
  {
    var q1 := cp / 0x40;
    var q2 := q1 / 0x40;
    var q3 := q2 / 0x40;
    assert q2 == cp / 0x1000;
    assert q3 == cp / 0x4_0000;
    assert q1 == q2 * 0x40 + q1 % 0x40;
    assert q2 == q3 * 0x40 + q2 % 0x40;
  }

  /** `text.encode('utf-8', errors='ignore')`; a string here never holds a
      lone surrogate, so nothing is dropped. ASCII text gives one byte per
      character, the character's code. */
  function Utf8(s: string): (bs: seq<Byte>)
    ensures |s| <= |bs| <= 4 * |s|
    ensures (forall i :: 0 <= i < |s| ==> s[i] as int < 0x80) ==>
              |bs| == |s| && forall i :: 0 <= i < |s| ==> bs[i] == s[i] as int
  {
    if s == [] then [] else Utf8Char(s[0]) + Utf8(s[1..])
  }

  /** Encoding works character by character: the bytes of a concatenation
      are the bytes of its parts. */
  lemma {:induction false} Utf8Append(a: string, b: string)
    ensures Utf8(a + b) == Utf8(a) + Utf8(b)
    decreases |a|
  {
    if a == [] {
      assert a + b == b;
    } else {
      assert (a + b)[0] == a[0] && (a + b)[1..] == a[1..] + b;
      Utf8Append(a[1..], b);
    }
  }

  datatype Response = Response(status: nat, headers: seq<(string, string)>, body: seq<Byte>)

  const ContentType := "text/html; charset=utf-8"

  /** The header value sent as Content-Length, when there is one. */
  function ContentLength(r: Response): Option<string> {
    FindHeader(r.headers, "Content-Length")
  }

  function FindHeader(hs: seq<(string, string)>, name: string): Option<string> {
    if hs == [] then None
    else if hs[0].0 == name then Some(hs[0].1)
    else FindHeader(hs[1..], name)
  }

  /** The response carries a Content-Length header, and the number read
      back from it is the length of the body sent. */
  predicate LengthHonest(r: Response) {
    ContentLength(r).Some? && ParseNat(ContentLength(r).value) == Some(|r.body|)
  }

  /** What every one of the server's writers sends: the status, the HTML
      content type, `str(len(body))` as Content-Length, then the body. */
  function Respond(status: nat, body: seq<Byte>): (r: Response)
    ensures r.status == status && r.body == body
    ensures LengthHonest(r)
  {
    NatRoundTrip(|body|);
    var r := Response(status, [("Content-Type", ContentType), ("Content-Length", NatToString(|body|))], body);
    assert "Content-Type"[8] != "Content-Length"[8];
    assert r.headers[1..] == [("Content-Length", NatToString(|body|))];
    assert FindHeader(r.headers[1..], "Content-Length") == Some(NatToString(|body|));
    r
  }

  /** The fixed body of every 404: the ASCII bytes of
      "<h1>404 Not Found</h1>". */
  const NotFoundPage: seq<Byte> :=
    [60, 104, 49, 62, 52, 48, 52, 32, 78, 111, 116, 32, 70, 111, 117, 110, 100, 60, 47, 104, 49, 62]

  /** `_send_not_found`. */
  function NotFound(): (r: Response)
    ensures r.status == 404 && r.body == NotFoundPage
    ensures LengthHonest(r)
  {
    Respond(404, NotFoundPage)
  }

  /** The page `_send_error(code, message)` writes. */
  function ErrorBody(code: nat, message: string): seq<Byte> {
    Utf8("<h1>" + NatToString(code) + "</h1><p>" + message + "</p>")
  }

  /** `_send_error(code, message)`: the code and message in a small page,
      UTF-8 encoded. */
  function ErrorPage(code: nat, message: string): (r: Response)
    ensures r.status == code && r.body == ErrorBody(code, message)
    ensures LengthHonest(r)
  {
    Respond(code, ErrorBody(code, message))
  }

  /** The state of `index.html` when a request comes: absent, present but
      failing to read (with the exception's text), or these bytes. */
  datatype IndexFile = Absent | Unreadable(reason: string) | Present(bytes: seq<Byte>)

  /** `_send_index`: 404 when the file is absent, 500 with the reason when
      reading fails, otherwise 200 with the file's bytes. */
  function SendIndex(index: IndexFile): (r: Response)
    ensures index.Absent? ==> r == NotFound()
    ensures index.Unreadable? ==> r == ErrorPage(500, "Internal Server Error: " + index.reason)
    ensures index.Present? ==> r.status == 200 && r.body == index.bytes
    ensures LengthHonest(r)
  {
    match index
    case Absent => NotFound()
    case Unreadable(reason) => ErrorPage(500, "Internal Server Error: " + reason)
    case Present(bytes) => Respond(200, bytes)
  }

  // ---------------------------------------------------------------------
  // do_GET

  /** What the location service answers for an address it is asked about. */
  datatype Location = Location(country: string, region: string, city: string)

  /** The handling of one GET: whether the location service was asked,
      the text appended to the log line, and the response. */
  datatype Handled = Handled(askedGeo: bool, geoText: string, response: Response)

  /** `do_GET`. The location service is asked exactly when the client's
      address is not private, and only its answer adds to the log line.
      Exactly "/" and "/index.html" serve the index; every other path is a
      404. Whatever the outcome, Content-Length is the body's length. */
  function DoGet(path: string, client: Address, geo: Option<Location>, index: IndexFile): (h: Handled)
    ensures h.askedGeo <==> !IsPrivate(client)
    ensures !h.askedGeo || geo.None? ==> h.geoText == ""
    ensures path == "/" || path == "/index.html" ==> h.response == SendIndex(index)
    ensures path != "/" && path != "/index.html" ==> h.response == NotFound()
    ensures LengthHonest(h.response)
  {
    var asked := !IsPrivate(client);
    var geoText :=
      if asked && geo.Some? then
        " | Geo: " + geo.value.country + ", " + geo.value.region + ", " + geo.value.city
      else "";
    var response := if path == "/" || path == "/index.html" then SendIndex(index) else NotFound();
    Handled(asked, geoText, response)
  }

  /** A client on the loopback or a private network is never looked up,
      nor is one whose address text does not parse; a public one is. */
  lemma LocalClientsNotLookedUp()
    ensures IsPrivate(V4(0x7F00_0001))      // 127.0.0.1
    ensures IsPrivate(V4(0xC0A8_0001))      // 192.168.0.1
    ensures IsPrivate(V6(1))                // ::1
    ensures IsPrivate(Unparsable)
    ensures !IsPrivate(V4(0x0808_0808))     // 8.8.8.8
  {
    PrivateV4(0x7F00_0001);
    PrivateV4(0xC0A8_0001);
    PrivateV6(1);
    PrivateV4(0x0808_0808);
  }
}
