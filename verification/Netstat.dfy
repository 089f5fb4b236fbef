/** The socket table: `OutputSocketAddress` and the columns that `ProcessNetstat` pads it into. */
module Netstat {
  import opened Base
  import opened Numbers
  import opened Ip6Text
  import opened Ip6Laws

  datatype SockAddr = SockAddr(address: Address, port: Uint16)

  function PortText(port: Uint16): string {
    if port == 0 then "*" else Text(port, Decimal)
  }

  function SocketText(sock: SockAddr): string {
    AddressText(sock.address) + ":" + PortText(sock.port)
  }

  /** Prints the parts one after the other and adds up their lengths. */
  method OutputSocketAddress(sock: SockAddr) returns (out: string, length: nat)
    ensures out == SocketText(sock) && length == |out|
    ensures ShowsPort(out, sock.port)
  {
    SocketTextShowsPort(sock);
    hide ShowsPort, Text;
    out := AddressText(sock.address);
    length := |out|;
    out := out + ":";
    length := length + 1;
    if sock.port == 0 {
      out := out + "*";
      length := length + 1;
    } else {
      var port := Text(sock.port, Decimal);
      out := out + port;
      length := length + |port|;
    }
  }

  // ---------- Reading a socket address back ----------

  function LastColon(t: string): (k: Option<nat>)
    ensures k.Some? ==> k.value < |t|
  {
    if t == "" then None
    else if t[|t| - 1] == ':' then Some(|t| - 1)
    else LastColon(t[..|t| - 1])
  }

  /** `*` stands for port 0, which no number may. */
  function ReadPort(t: string): Option<Uint16> {
    if t == "*" then Some(0)
    else
      match ParseUint(t, UINT16_MAX)
      case Ok(port) => if port == 0 then None else Some(port)
      case Err(_) => None
  }

  /** What follows the last colon is `*` for port 0, and otherwise the port in decimal digits. */
  predicate ShowsPort(t: string, port: Uint16) {
    match LastColon(t)
    case None => false
    case Some(k) =>
      var shown := t[k + 1..];
      && (shown == "*" <==> port == 0)
      && (port != 0 ==> shown != "" && Value(shown, Decimal) == Some(port))
  }

  /** The port follows the last colon. */
  function ReadSocket(t: string): Option<SockAddr> {
    match LastColon(t)
    case None => None
    case Some(k) =>
      match (ParseAddress(t[..k]), ReadPort(t[k + 1..]))
      case (Some(address), Some(port)) => Some(SockAddr(address, port))
      case _ => None
  }

  lemma {:induction false} LastColonBefore(t: string, u: string)
    requires ':' !in u
    ensures LastColon(t + ":" + u) == Some(|t|)
  {
    var s := t + ":" + u;
    if u == "" {
      assert s[|s| - 1] == ':';
    } else {
      assert s[|s| - 1] == u[|u| - 1];
      assert s[..|s| - 1] == t + ":" + u[..|u| - 1];
      LastColonBefore(t, u[..|u| - 1]);
    }
  }

  lemma PortTextReadsBack(port: Uint16)
    ensures ReadPort(PortText(port)) == Some(port) && ':' !in PortText(port)
  {
    if port != 0 {
      var text := Text(port, Decimal);
      NumberOfText(port);
      forall k | 0 <= k < |text| ensures text[k] != ':' && text[k] != '*' {
        TextDigits(port, Decimal, k);
      }
      assert text[0] != '*';
    }
  }

  /** The printed text determines the address and the port, although both use colons. */
  lemma SocketTextReadsBack(sock: SockAddr)
    ensures ReadSocket(SocketText(sock)) == Some(sock)
  {
    hide ParseAddress, AddressText, ReadPort, PortText;
    var head, port := AddressText(sock.address), PortText(sock.port);
    var t := SocketText(sock);
    ParsePrinted(sock.address);
    PortTextReadsBack(sock.port);
    LastColonBefore(head, port);
    assert t[..|head|] == head && t[|head| + 1..] == port;
  }

  lemma SocketTextShowsPort(sock: SockAddr)
    ensures ShowsPort(SocketText(sock), sock.port)
  {
    hide AddressText, Value, Text;
    var head, port := AddressText(sock.address), PortText(sock.port);
    PortTextReadsBack(sock.port);
    LastColonBefore(head, port);
    assert SocketText(sock)[|head| + 1..] == port;
    ValueOfText(sock.port, Decimal);
    TextDigits(sock.port, Decimal, 0);
  }

  // ---------- Columns ----------

  /** The column width is enough for every socket address, and no smaller width would be. */
  lemma SocketTextFits(sock: SockAddr)
    ensures |SocketText(sock)| <= COLUMN
  {
    JoinLength(sock.address);
    assert Power(Decimal, 5) == 100_000;
    TextLength(sock.port, Decimal, 5);
  }

  lemma ColumnIsTight()
    ensures |SocketText(SockAddr([0xffff, 0xffff, 0xffff, 0xffff, 0xffff, 0xffff, 0xffff, 0xffff], 0xffff))| == COLUMN
  {
    assert |Text(0xffff, Hex)| == 4;
    assert |Text(0xffff, Decimal)| == 5;
    var ws: seq<Uint16> := [0xffff, 0xffff, 0xffff, 0xffff, 0xffff, 0xffff, 0xffff, 0xffff];
    assert |Join(ws[7..])| == 4;
    assert ws[6..][1..] == ws[7..] && |Join(ws[6..])| == 9;
    assert ws[5..][1..] == ws[6..] && |Join(ws[5..])| == 14;
    assert ws[4..][1..] == ws[5..] && |Join(ws[4..])| == 19;
    assert ws[3..][1..] == ws[4..] && |Join(ws[3..])| == 24;
    assert ws[2..][1..] == ws[3..] && |Join(ws[2..])| == 29;
    assert |Join(ws[1..])| == 34;
  }

  const COLUMN: nat := 45
  const HEADER := "|                 Local Address                 |                  Peer Address                 |"
  const RULE := "+-----------------------------------------------+-----------------------------------------------+"

  function Spaces(n: nat): (s: string)
    ensures |s| == n && forall k :: 0 <= k < n ==> s[k] == ' '
  {
    seq(n, _ => ' ')
  }

  /** A cell is the text up to its first space. */
  function CellText(cell: string): string {
    if cell == "" || cell[0] == ' ' then "" else [cell[0]] + CellText(cell[1..])
  }

  predicate IsCell(cell: string, sock: SockAddr) {
    && |cell| == COLUMN
    && ReadSocket(CellText(cell)) == Some(sock) && ShowsPort(CellText(cell), sock.port)
  }

  lemma {:induction false} CellOfPadded(t: string, n: nat)
    requires ' ' !in t
    ensures CellText(t + Spaces(n)) == t
  {
    if t == "" {
      assert t + Spaces(n) == Spaces(n);
    } else {
      CellOfPadded(t[1..], n);
      assert (t + Spaces(n))[1..] == t[1..] + Spaces(n);
    }
  }

  lemma PaddedIsCell(sock: SockAddr)
    ensures |SocketText(sock)| <= COLUMN
    ensures IsCell(SocketText(sock) + Spaces(COLUMN - |SocketText(sock)|), sock)
  {
    hide ReadSocket, CellText, Join, Text, ShowsPort;
    var t := SocketText(sock);
    SocketTextFits(sock);
    SocketTextShowsPort(sock);
    SocketTextReadsBack(sock);
    forall k | 0 <= k < |Join(sock.address)| ensures Join(sock.address)[k] != ' ' {
      JoinChars(sock.address, k);
    }
    var port := Text(sock.port, Decimal);
    forall k | 0 <= k < |port| ensures port[k] != ' ' {
      TextDigits(sock.port, Decimal, k);
    }
    assert ' ' !in t;
    CellOfPadded(t, COLUMN - |t|);
  }

  /** Pads the printed address as the loops of `ProcessNetstat` do. */
  method OutputCell(sock: SockAddr) returns (cell: string)
    ensures |cell| == COLUMN && IsCell(cell, sock)
  {
    hide SocketText, IsCell, Spaces;
    var text, length := OutputSocketAddress(sock);
    PaddedIsCell(sock);
    cell := text;
    MoreSpaces(text, 0);
    for i := length to COLUMN
      invariant cell == text + Spaces(i - length)
    {
      MoreSpaces(text, i - length);
      cell := cell + " ";
    }
  }

  lemma MoreSpaces(text: string, n: nat)
    ensures text + Spaces(0) == text && text + Spaces(n) + " " == text + Spaces(n + 1)
  {
    assert Spaces(n) + " " == Spaces(n + 1);
    assert text + Spaces(n) + " " == text + (Spaces(n) + " ");
  }

  /** One line for each socket: every line is as wide as the header and shows both addresses in full. */
  method ProcessNetstat(sockets: seq<(SockAddr, SockAddr)>) returns (lines: seq<string>)
    ensures |lines| == |sockets| + 2 && lines[0] == HEADER && lines[1] == RULE
    ensures forall k :: 0 <= k < |lines| ==> |lines[k]| == |HEADER|
    ensures forall k :: 0 <= k < |sockets| ==>
        && IsCell(lines[k + 2][2..2 + COLUMN], sockets[k].0)
        && IsCell(lines[k + 2][5 + COLUMN..5 + 2 * COLUMN], sockets[k].1)
  {
    hide IsCell;
    lines := [HEADER, RULE];
    for n := 0 to |sockets|
      invariant |lines| == n + 2 && lines[0] == HEADER && lines[1] == RULE
      invariant forall k :: 0 <= k < |lines| ==> |lines[k]| == |HEADER|
      invariant forall k :: 0 <= k < n ==>
          && IsCell(lines[k + 2][2..2 + COLUMN], sockets[k].0)
          && IsCell(lines[k + 2][5 + COLUMN..5 + 2 * COLUMN], sockets[k].1)
    {
      var local := OutputCell(sockets[n].0);
      var peer := OutputCell(sockets[n].1);
      var line := "| " + local + " | " + peer + " |";
      assert line[2..2 + COLUMN] == local && line[5 + COLUMN..5 + 2 * COLUMN] == peer;
      lines := lines + [line];
    }
  }
}
