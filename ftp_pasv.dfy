/** Passive-mode negotiation (`ftp_pasv_connect`): the reply to PASV carries
    the server's data endpoint as six decimal numbers `(a,b,c,d,p1,p2)`, the
    address `a.b.c.d` and the port `p1*256+p2` (RFC 959, section 4.1.2). */
module FtpPasv {
  import opened FtpCommon
  import opened FtpReply

  /** The endpoint the client connects its data socket to. */
  datatype Endpoint = Endpoint(a: int, b: int, c: int, d: int, port: int)

  /** Index of the first `(`, if any. */
  function FirstParen(s: string): (r: Option<nat>)
    ensures r.Some? ==> r.value < |s| && s[r.value] == '(' &&
                        forall i :: 0 <= i < r.value ==> s[i] != '('
    ensures r.None? ==> forall i :: 0 <= i < |s| ==> s[i] != '('
  {
    if s == [] then None
    else if s[0] == '(' then Some(0)
    else match FirstParen(s[1..])
      case None => None
      case Some(k) => Some(k + 1)
  }

  /** `k` integers in `%d,%d,…` form at the front of `s`; `None` as soon as
      one conversion or one comma fails to match. */
  function ScanFields(s: string, k: nat): (r: Option<seq<int>>)
    ensures r.Some? ==> |r.value| == k
    decreases k
  {
    if k == 0 then Some([])
    else match ScanInt(s)
      case None => None
      case Some(sc) =>
        if k == 1 then Some([sc.value])
        else if sc.rest != [] && sc.rest[0] == ',' then
          match ScanFields(sc.rest[1..], k - 1)
          case None => None
          case Some(more) => Some([sc.value] + more)
        else None
  }

  /** `sscanf(reply, "%*[^(](%d,%d,%d,%d,%d,%d)", …)`: at least one character
      before the first `(` (the `%[` conversion must match something), then
      six comma-separated integers.  `None` when fewer than six are read,
      which leaves part of `addr` uninitialised. */
  function ParsePasv(s: string): (r: Option<Endpoint>)
    ensures r.Some? ==> FirstParen(s).Some? && FirstParen(s).value >= 1
    ensures r.Some? ==>
      var f := ScanFields(s[FirstParen(s).value + 1..], 6);
      f.Some? && r.value == Endpoint(f.value[0], f.value[1], f.value[2], f.value[3],
                                     f.value[4] * 256 + f.value[5])
  {
    match FirstParen(s)
    case None => None
    case Some(i) =>
      if i == 0 then None
      else match ScanFields(s[i + 1..], 6)
        case None => None
        case Some(f) => Some(Endpoint(f[0], f[1], f[2], f[3], f[4] * 256 + f[5]))
  }

  /** Port number on the wire: `htons((unsigned short)port)` keeps 16 bits. */
  function WirePort(e: Endpoint): (p: int)
    ensures 0 <= p < 65536
    ensures 0 <= e.port < 65536 ==> p == e.port
  {
    e.port % 65536
  }

  /** Result of `ftp_pasv_connect`: a data socket, opened towards `target`
      (`None`: an address the reply did not determine), or -1. */
  datatype PasvResult = DataSocket(target: Option<Endpoint>) | PasvFailed

  /** `ftp_pasv_connect`: the data socket exists exactly when the connect
      succeeds (`connects`, the outcome of the socket layer); the reply only
      decides where the client connects to.  A failed exchange or a reply
      that does not parse still goes on to connect, to an uninitialised
      address. */
  function PasvConnect(r: Reply, connects: bool): (res: PasvResult)
    requires Fits(r)
    ensures res.PasvFailed? <==> !connects
    ensures res.DataSocket? ==>
      (res.target.Some? <==> r.Text? && r.text != [] && ParsePasv(r.text).Some?)
    ensures res.DataSocket? && res.target.Some? ==> res.target == ParsePasv(r.text)
  {
    if !connects then PasvFailed
    else if r.Lost? || r.text == [] then DataSocket(None)
    else DataSocket(ParsePasv(r.text))
  }

  /** `n0,n1,…` in decimal. */
  function Joined(fs: seq<nat>): (s: string)
    requires |fs| >= 1
    ensures |s| >= 1 && IsDigit(s[0])
    decreases |fs|
  {
    if |fs| == 1 then Show(fs[0]) else Show(fs[0]) + [','] + Joined(fs[1..])
  }

  lemma {:induction false} ScanFieldsJoined(fs: seq<nat>, rest: string)
    requires |fs| >= 1
    requires rest == [] || !IsDigit(rest[0])
    ensures ScanFields(Joined(fs) + rest, |fs|) == Some(fs)
    decreases |fs|
  {
    if |fs| == 1 {
      ScanFieldsOne(fs, rest);
    } else {
      ScanFieldsJoined(fs[1..], rest);
      ScanFieldsJoinedStep(fs, rest);
    }
  }

  /** One number, read back. */
  lemma {:induction false} ScanFieldsOne(fs: seq<nat>, rest: string)
    requires |fs| == 1
    requires rest == [] || !IsDigit(rest[0])
    ensures ScanFields(Joined(fs) + rest, 1) == Some(fs)
  {
    ScanIntShow(fs[0], rest);
    assert fs == [fs[0]];
  }

  /** The first number and its comma in front of the others. */
  lemma {:induction false} ScanFieldsJoinedStep(fs: seq<nat>, rest: string)
    requires |fs| >= 2
    requires ScanFields(Joined(fs[1..]) + rest, |fs| - 1) == Some(fs[1..])
    ensures ScanFields(Joined(fs) + rest, |fs|) == Some(fs)
  {
    ScanFieldsStep(fs[0], Joined(fs[1..]) + rest, |fs|, fs[1..]);
    Regroup(Show(fs[0]), ',', Joined(fs[1..]), rest);
    assert Joined(fs) == Show(fs[0]) + [','] + Joined(fs[1..]);
    assert [fs[0]] + fs[1..] == fs;
  }

  /** A printed number and a comma in front of `k - 1` fields. */
  lemma {:induction false} ScanFieldsStep(x: nat, tail: string, k: nat, more: seq<int>)
    requires k >= 2
    requires ScanFields(tail, k - 1) == Some(more)
    ensures ScanFields(Show(x) + ([','] + tail), k) == Some([x] + more)
  {
    ScanIntShow(x, [','] + tail);
    assert ([','] + tail)[1..] == tail;
  }

  /** PASV decoding round trip: whatever free text precedes the
      parenthesis, the six numbers the server printed come back as the
      address octets and the port `p1*256+p2`. */
  lemma {:induction false} ParsePasvReads(prefix: string, fs: seq<nat>, suffix: string)
    requires prefix != [] && '(' !in prefix && |fs| == 6
    requires suffix == [] || !IsDigit(suffix[0])
    ensures ParsePasv(prefix + "(" + Joined(fs) + suffix) ==
            Some(Endpoint(fs[0], fs[1], fs[2], fs[3], fs[4] * 256 + fs[5]))
  {
    ScanFieldsJoined(fs, suffix);
    ParsePasvOf(prefix, Joined(fs), suffix, fs);
  }

  /** The round trip with the printed numbers kept abstract. */
  lemma {:induction false} ParsePasvOf(prefix: string, j: string, suffix: string, fs: seq<int>)
    requires prefix != [] && '(' !in prefix && |fs| == 6
    requires ScanFields(j + suffix, 6) == Some(fs)
    ensures ParsePasv(prefix + "(" + j + suffix) ==
            Some(Endpoint(fs[0], fs[1], fs[2], fs[3], fs[4] * 256 + fs[5]))
  {
    ParsePasvAfterParen(prefix + "(" + j + suffix, prefix, j + suffix, fs);
  }

  lemma {:induction false} ParsePasvAfterParen(s: string, prefix: string, body: string, fs: seq<int>)
    requires s == prefix + ("(" + body)
    requires prefix != [] && '(' !in prefix
    requires ScanFields(body, 6) == Some(fs)
    ensures ParsePasv(s) == Some(Endpoint(fs[0], fs[1], fs[2], fs[3], fs[4] * 256 + fs[5]))
  {
    var i := |prefix|;
    FirstParenAfter(prefix, "(" + body);
    assert s[i + 1..] == body;
    ParsePasvAt(s, i, fs);
  }

  /** The endpoint read once the parenthesis is found. */
  lemma {:induction false} ParsePasvAt(s: string, i: nat, fs: seq<int>)
    requires FirstParen(s) == Some(i) && i >= 1 && |fs| == 6
    requires ScanFields(s[i + 1..], 6) == Some(fs)
    ensures ParsePasv(s) == Some(Endpoint(fs[0], fs[1], fs[2], fs[3], fs[4] * 256 + fs[5]))
  {
  }

  lemma {:induction false} FirstParenAfter(prefix: string, t: string)
    requires '(' !in prefix && t != [] && t[0] == '('
    ensures FirstParen(prefix + t) == Some(|prefix|)
  {
    var r := FirstParen(prefix + t);
    assert (prefix + t)[|prefix|] == '(';
    assert forall i :: 0 <= i < |prefix| ==> (prefix + t)[i] == prefix[i];
  }

  /** The reply `227 Entering Passive Mode (192,168,1,10,4,1).` names
      the endpoint 192.168.1.10, port 4 * 256 + 1 = 1025. */
  lemma {:induction false} PasvExample()
    ensures ParsePasv("227 Entering Passive Mode " + "(" + "192,168,1,10,4,1" + ").") ==
            Some(Endpoint(192, 168, 1, 10, 1025))
  {
    JoinedExample();
    ParsePasvReads("227 Entering Passive Mode ", [192, 168, 1, 10, 4, 1], ").");
  }

  lemma {:induction false} JoinedExample()
    ensures Joined([192, 168, 1, 10, 4, 1]) == "192,168,1,10,4,1"
  {
    ShowExamples();
    JoinedSix(192, 168, 1, 10, 4, 1);
  }

  /** The six fields of a PASV reply, comma-separated. */
  lemma {:induction false} JoinedSix(a: nat, b: nat, c: nat, d: nat, e: nat, f: nat)
    ensures Joined([a, b, c, d, e, f]) ==
      Show(a) + "," + (Show(b) + "," + (Show(c) + "," + (Show(d) + "," + (Show(e) + "," + Show(f)))))
  {
    JoinedCons(e, [f]);
    JoinedCons(d, [e, f]);
    JoinedCons(c, [d, e, f]);
    JoinedCons(b, [c, d, e, f]);
    JoinedCons(a, [b, c, d, e, f]);
    assert [a] + [b, c, d, e, f] == [a, b, c, d, e, f];
    assert [b] + [c, d, e, f] == [b, c, d, e, f];
    assert [c] + [d, e, f] == [c, d, e, f];
    assert [d] + [e, f] == [d, e, f];
    assert [e] + [f] == [e, f];
  }

  lemma {:induction false} ShowExamples()
    ensures Show(192) == "192" && Show(168) == "168" && Show(10) == "10" && Show(4) == "4" && Show(1) == "1"
  {
    assert Show(19) == "19";
    assert Show(16) == "16";
  }

  lemma {:induction false} JoinedCons(x: nat, rest: seq<nat>)
    requires |rest| >= 1
    ensures Joined([x] + rest) == Show(x) + "," + Joined(rest)
  {
    assert ([x] + rest)[1..] == rest;
  }
}
