/** The pure parts of the group mailer 1023/send_mail_group_html.py: the
    recipient rows read from its CSV file, the HTML wrapper made for a
    plain-text body, and the checks `main` makes before anything is sent.
    The CSV file is its sequence of already-split rows. */
module MailTargets {
  import opened Options
  import opened Text

  type Row = seq<string>

  /** A recipient: display name and address. */
  datatype Target = Target(name: string, email: string)

  // ---------------------------------------------------------------------
  // read_csv_targets

  /** A data row yields a recipient when it has two fields and both are
      non-blank. */
  predicate Usable(row: Row) {
    |row| >= 2 && Strip(row[0]) != [] && Strip(row[1]) != []
  }

  function TargetOf(row: Row): Target
    requires |row| >= 2
  {
    Target(Strip(row[0]), Strip(row[1]))
  }

  /** Name and address are both non-empty with no whitespace at either
      end. */
  predicate Clean(t: Target) {
    t.name != [] && t.email != [] && Trimmed(t.name) && Trimmed(t.email)
  }

  /** What one data row yields: its stripped name and address when both
      are non-blank, nothing otherwise. */
  function Pick(row: Row): (r: Option<Target>)
    ensures r.Some? <==> Usable(row)
    ensures r.Some? ==> Clean(r.value)
  {
    if Usable(row) then Some(TargetOf(row)) else None
  }

  /** `row` is a usable row giving recipient `t`. */
  predicate Gives(row: Row, t: Target) {
    Pick(row) == Some(t)
  }

  /** A left-to-right pass keeping what `pick` yields for each row. */
  function CollectWith(rows: seq<Row>, pick: Row -> Option<Target>): (ts: seq<Target>)
    ensures |ts| <= |rows|
    decreases |rows|
  {
    if rows == [] then []
    else
      var rest := CollectWith(rows[1..], pick);
      match pick(rows[0])
      case None => rest
      case Some(t) => [t] + rest
  }

  /** The loop of `read_csv_targets` after the header: short or blank rows
      and rows with a blank name or address are passed over; the others
      give their stripped first two fields, in file order. */
  function Collect(rows: seq<Row>): (ts: seq<Target>)
    ensures |ts| <= |rows|
  {
    CollectWith(rows, Pick)
  }

  /** A value is kept exactly when some row yields it. */
  lemma CollectWithMembers(rows: seq<Row>, pick: Row -> Option<Target>, t: Target)
    ensures t in CollectWith(rows, pick) <==> exists k :: 0 <= k < |rows| && pick(rows[k]) == Some(t)
  {
    if t in CollectWith(rows, pick) {
      CollectWithSound(rows, pick, t);
    }
    if exists k :: 0 <= k < |rows| && pick(rows[k]) == Some(t) {
      var k :| 0 <= k < |rows| && pick(rows[k]) == Some(t);
      CollectWithComplete(rows, pick, k, t);
    }
  }

  lemma {:induction false} CollectWithSound(rows: seq<Row>, pick: Row -> Option<Target>, t: Target)
    requires t in CollectWith(rows, pick)
    ensures exists k :: 0 <= k < |rows| && pick(rows[k]) == Some(t)
    decreases |rows|
  {
    var rest := rows[1..];
    if pick(rows[0]) == Some(t) {
    } else {
      assert t in CollectWith(rest, pick);
      CollectWithSound(rest, pick, t);
      var k :| 0 <= k < |rest| && pick(rest[k]) == Some(t);
      assert rows[k + 1] == rest[k];
    }
  }

  lemma {:induction false} CollectWithComplete(rows: seq<Row>, pick: Row -> Option<Target>, k: nat, t: Target)
    requires k < |rows| && pick(rows[k]) == Some(t)
    ensures t in CollectWith(rows, pick)
    decreases k
  {
    if k > 0 {
      var rest := rows[1..];
      assert rest[k - 1] == rows[k];
      CollectWithComplete(rest, pick, k - 1, t);
    }
  }

  /** Nothing is kept when no row yields anything. */
  lemma {:induction false} CollectWithNone(rows: seq<Row>, pick: Row -> Option<Target>)
    requires forall k :: 0 <= k < |rows| ==> pick(rows[k]).None?
    ensures CollectWith(rows, pick) == []
    decreases |rows|
  {
    if rows != [] {
      assert forall k :: 0 <= k < |rows[1..]| ==> rows[1..][k] == rows[k + 1];
      CollectWithNone(rows[1..], pick);
    }
  }

  /** The pass over two runs of rows is the two passes, in order. */
  lemma {:induction false} CollectWithAppend(a: seq<Row>, b: seq<Row>, pick: Row -> Option<Target>)
    ensures CollectWith(a + b, pick) == CollectWith(a, pick) + CollectWith(b, pick)
    decreases |a|
  {
    if a == [] {
      assert a + b == b;
    } else {
      assert (a + b)[0] == a[0];
      assert (a + b)[1..] == a[1..] + b;
      CollectWithAppend(a[1..], b, pick);
      var r := CollectWith(a[1..], pick);
      var rb := CollectWith(b, pick);
      match pick(a[0])
      case None =>
      case Some(t) => ConsAssoc(t, r, rb);
    }
  }

  /** A recipient is collected exactly when some usable row gives it. */
  lemma CollectMembers(rows: seq<Row>, t: Target)
    ensures t in Collect(rows) <==> exists k :: 0 <= k < |rows| && Gives(rows[k], t)
  {
    CollectWithMembers(rows, Pick, t);
  }

  /** Every collected recipient is clean. */
  lemma CollectClean(rows: seq<Row>)
    ensures forall i :: 0 <= i < |Collect(rows)| ==> Clean(Collect(rows)[i])
  {
    forall i | 0 <= i < |Collect(rows)|
      ensures Clean(Collect(rows)[i])
    {
      var t := Collect(rows)[i];
      CollectWithSound(rows, Pick, t);
    }
  }

  /** Collecting over two files' worth of rows keeps their order. */
  lemma CollectAppend(a: seq<Row>, b: seq<Row>)
    ensures Collect(a + b) == Collect(a) + Collect(b)
  {
    CollectWithAppend(a, b, Pick);
  }

  /** `read_csv_targets`: the first row is the header and is dropped
      whatever it holds, even when it is blank or would be a usable row. */
  function ReadTargets(rows: seq<Row>): (ts: seq<Target>)
    ensures rows == [] ==> ts == []
    ensures forall t :: t in ts <==> exists k :: 1 <= k < |rows| && Gives(rows[k], t)
    ensures forall i :: 0 <= i < |ts| ==> Clean(ts[i])
  {
    if rows == [] then []
    else
      ReadTargetsMembers(rows);
      CollectClean(rows[1..]);
      Collect(rows[1..])
  }

  lemma ReadTargetsMembers(rows: seq<Row>)
    requires rows != []
    ensures forall t :: t in Collect(rows[1..]) <==> exists k :: 1 <= k < |rows| && Gives(rows[k], t)
  {
    CollectWithTail(rows, Pick);
  }

  /** The pass over all rows but the first keeps what those rows yield. */
  lemma CollectWithTail(rows: seq<Row>, pick: Row -> Option<Target>)
    requires rows != []
    ensures forall t :: t in CollectWith(rows[1..], pick) <==> exists k :: 1 <= k < |rows| && pick(rows[k]) == Some(t)
  {
    var rest := rows[1..];
    forall t
      ensures t in CollectWith(rest, pick) <==> exists k :: 1 <= k < |rows| && pick(rows[k]) == Some(t)
    {
      CollectWithMembers(rest, pick, t);
      if t in CollectWith(rest, pick) {
        var k :| 0 <= k < |rest| && pick(rest[k]) == Some(t);
        assert pick(rows[k + 1]) == Some(t);
      }
      if exists k :: 1 <= k < |rows| && pick(rows[k]) == Some(t) {
        var k :| 1 <= k < |rows| && pick(rows[k]) == Some(t);
        assert pick(rest[k - 1]) == Some(t);
      }
    }
  }

  /** Changing the header row changes nothing. */
  lemma HeaderIgnored(h1: Row, h2: Row, rest: seq<Row>)
    ensures ReadTargets([h1] + rest) == ReadTargets([h2] + rest)
  {
    assert ([h1] + rest)[1..] == rest;
    assert ([h2] + rest)[1..] == rest;
  }

  /** A file holding only a header, or only rows with a blank field, has
      no recipients. */
  lemma NoUsableRowNoTargets(rows: seq<Row>)
    requires forall k :: 1 <= k < |rows| ==> !Usable(rows[k])
    ensures ReadTargets(rows) == []
  {
    if rows != [] {
      var rest := rows[1..];
      assert forall k :: 0 <= k < |rest| ==> Pick(rest[k]).None? by {
        forall k | 0 <= k < |rest|
          ensures Pick(rest[k]).None?
        {
          assert rest[k] == rows[k + 1];
        }
      }
      CollectWithNone(rest, Pick);
    }
  }

  // ---------------------------------------------------------------------
  // HTML escaping in make_default_html

  /** How one character of the body reads at each stage of escaping and
      un-escaping:
        0  escaped:           '&' "&amp;", '<' "&lt;", '>' "&gt;"
        1  "&lt;" undone:     '&' "&amp;", '>' "&gt;"
        2  only '&' escaped:  '&' "&amp;"
        3  plain text
        4  '&' and '<' escaped, '>' not yet */
  function Stage(k: nat, c: char): string {
    if c == '&' && k != 3 then "&amp;"
    else if c == '<' && (k == 0 || k == 4) then "&lt;"
    else if c == '>' && (k == 0 || k == 1) then "&gt;"
    else [c]
  }

  /** A text with each character written as at stage `k`. */
  function Staged(k: nat, s: string): string
    decreases |s|
  {
    if s == [] then [] else Stage(k, s[0]) + Staged(k, s[1..])
  }

  /** At stage 3 every character stands for itself. */
  lemma {:induction false} PlainStage(s: string)
    ensures Staged(3, s) == s
    decreases |s|
  {
    if s != [] {
      PlainStage(s[1..]);
      assert s == [s[0]] + s[1..];
    }
  }

  /** `tok` is passed over by a left-to-right scan for `pat` that starts
      at its first character: either `pat` cannot start anywhere inside it,
      or it starts like `pat` but parts from it at the second character and
      `pat` cannot start later in it. */
  predicate PassedOver(tok: string, pat: string)
    requires pat != []
  {
    || pat[0] !in tok
    || (|tok| >= 2 && |pat| >= 2 && tok[0] == pat[0] && tok[1] != pat[1] && pat[0] !in tok[1..])
  }

  lemma PassOver(tok: string, rest: string, pat: string, rep: string)
    requires pat != [] && PassedOver(tok, pat)
    ensures Replace(tok + rest, pat, rep) == tok + Replace(rest, pat, rep)
  {
    if pat[0] in tok {
      var t := tok + rest;
      var head, tail := tok[0], tok[1..];
      assert tok == [head] + tail && t == [head] + (tail + rest);
      if |t| >= |pat| {
        assert t[..|pat|][1] == tok[1];
        assert t[..|pat|] != pat;
        assert Replace(t, pat, rep) == [head] + Replace(tail + rest, pat, rep);
        ReplaceSkips(tail, rest, pat, rep);
        ConsAssoc(head, tail, Replace(rest, pat, rep));
      } else {
        assert |rest| < |pat|;
      }
    } else {
      ReplaceSkips(tok, rest, pat, rep);
    }
  }

  /** One `replace(pat, rep)` pass moves every character from stage `k` to
      stage `k2` when the only character whose form changes is `ch`,
      written as `pat` before and as `rep` after, and the forms of the
      others are passed over. */
  lemma {:induction false} ReplaceStage(k: nat, k2: nat, ch: char, pat: string, rep: string, s: string)
    requires pat != []
    requires Stage(k, ch) == pat && Stage(k2, ch) == rep
    requires forall c :: c != ch ==> Stage(k2, c) == Stage(k, c) && PassedOver(Stage(k, c), pat)
    ensures Replace(Staged(k, s), pat, rep) == Staged(k2, s)
    decreases |s|
  {
    if s != [] {
      ReplaceStage(k, k2, ch, pat, rep, s[1..]);
      if s[0] == ch {
        ReplaceHit(Staged(k, s[1..]), pat, rep);
      } else {
        PassOver(Stage(k, s[0]), Staged(k, s[1..]), pat, rep);
      }
    }
  }

  /** The chained `replace` calls of `make_default_html`, '&' first. */
  function Escape(s: string): string {
    Replace(Replace(Replace(s, "&", "&amp;"), "<", "&lt;"), ">", "&gt;")
  }

  /** The inverse chain, '&' last. */
  function Unescape(s: string): string {
    Replace(Replace(Replace(s, "&lt;", "<"), "&gt;", ">"), "&amp;", "&")
  }

  /** Escaping writes each character on its own: `&`, `<` and `>` as
      their entities and every other character as itself. */
  lemma EscapeByCharacter(s: string)
    ensures Escape(s) == Staged(0, s)
  {
    PlainStage(s);
    ReplaceStage(3, 2, '&', "&", "&amp;", s);
    ReplaceStage(2, 4, '<', "<", "&lt;", s);
    ReplaceStage(4, 0, '>', ">", "&gt;", s);
  }

  /** No character of an escaped text is an angle bracket. */
  lemma {:induction false} StagedZeroHasNoAngle(s: string)
    ensures '<' !in Staged(0, s) && '>' !in Staged(0, s)
    decreases |s|
  {
    if s != [] {
      StagedZeroHasNoAngle(s[1..]);
      assert '<' !in Stage(0, s[0]) && '>' !in Stage(0, s[0]);
    }
  }

  /** Un-escaping `&lt;`, then `&gt;`, then `&amp;` recovers the text:
      escaping '&' first is what makes this hold. */
  lemma UnescapeEscape(s: string)
    ensures Unescape(Escape(s)) == s
  {
    EscapeByCharacter(s);
    ReplaceStage(0, 1, '<', "&lt;", "<", s);
    ReplaceStage(1, 2, '>', "&gt;", ">", s);
    ReplaceStage(2, 3, '&', "&amp;", "&", s);
    PlainStage(s);
  }

  const HtmlHead := "<!doctype html><html><head><meta charset=\"utf-8\"></head><body><pre style=\"font-family:inherit\">"
  const HtmlTail := "</pre></body></html>"

  /** `make_default_html(text_body)`: the escaped body, `None` or empty
      read as no text, inside the fixed page. What sits between the head
      and the tail is the body with each '&', '<' and '>' written as its
      entity, has no angle bracket and un-escapes to the body. */
  function DefaultHtml(body: Option<string>): (html: string)
    ensures html == HtmlHead + Staged(0, body.GetOr("")) + HtmlTail
    ensures exists inner ::
              && html == HtmlHead + inner + HtmlTail
              && '<' !in inner && '>' !in inner
              && Unescape(inner) == body.GetOr("")
    ensures body == None || body == Some("") ==> html == HtmlHead + HtmlTail
  {
    var inner := Escape(body.GetOr(""));
    EscapeByCharacter(body.GetOr(""));
    StagedZeroHasNoAngle(body.GetOr(""));
    UnescapeEscape(body.GetOr(""));
    assert inner == [] ==> HtmlHead + inner + HtmlTail == HtmlHead + HtmlTail;
    HtmlHead + inner + HtmlTail
  }

  // ---------------------------------------------------------------------
  // The checks in main

  /** The `--html-file` argument: not given (or given empty), naming a
      file that does not exist, or naming one with this text. */
  datatype HtmlFile = NoPath | Missing | Contents(text: string)

  /** What `main` goes on to do: stop with an exit code, or build and send
      one message to these recipients with this HTML part. */
  datatype Plan = Abort(code: int) | Deliver(to: seq<Target>, html: string)

  const NoRecipientsExit := 1
  const FileErrorExit := 15

  /** `main` up to building the message. A missing CSV file, or a named
      HTML file that is missing, exits with 15; no recipients exits with 1
      before the HTML file is looked at; an HTML file that is absent or
      empty gives way to the default page for the text body. */
  function Prepare(csv: Option<seq<Row>>, body: string, htmlFile: HtmlFile): (p: Plan)
    ensures csv.None? ==> p == Abort(FileErrorExit)
    ensures csv.Some? && ReadTargets(csv.value) == [] ==> p == Abort(NoRecipientsExit)
    ensures p.Deliver? ==> csv.Some? && p.to == ReadTargets(csv.value) && p.to != []
    ensures p.Deliver? ==> p.html == (if htmlFile.Contents? && htmlFile.text != [] then htmlFile.text else DefaultHtml(Some(body)))
    ensures csv.Some? && ReadTargets(csv.value) != [] ==> (p.Abort? <==> htmlFile.Missing?)
  {
    match csv
    case None => Abort(FileErrorExit)
    case Some(rows) =>
      var targets := ReadTargets(rows);
      if targets == [] then Abort(NoRecipientsExit)
      else
        match htmlFile
        case Missing => Abort(FileErrorExit)
        case NoPath => Deliver(targets, DefaultHtml(Some(body)))
        case Contents(text) => Deliver(targets, if text != [] then text else DefaultHtml(Some(body)))
  }
}
