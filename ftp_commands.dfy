/** Commands on the control channel that map the server's reply code to a
    result: the USER/PASS login handshake, the transfer type, keep-alive,
    directory and file management (RFC 959, sections 4.1.1 to 4.1.3).  Each
    command is one exchange; the replies the server sends are inputs, and
    the model records the command lines the client sends. */
module FtpCommands {
  import opened FtpCommon
  import opened FtpReply

  /** A command line with an argument: `VERB arg\r\n`. */
  function Line(verb: string, arg: string): (l: string)
    ensures |l| == |verb| + |arg| + 3 && l[..|verb|] == verb && l[|verb|] == ' '
  {
    verb + " " + arg + "\r\n"
  }

  /** A command line without an argument: `VERB\r\n`. */
  function Bare(verb: string): (l: string)
    ensures |l| == |verb| + 2 && l[..|verb|] == verb
  {
    verb + "\r\n"
  }

  /** The command lines one call sends, in order, and the `int` it returns. */
  datatype Run = Run(sent: seq<string>, result: int)

  /** `login_server(c_sock, user, pwd)`: USER, and PASS only after a 331.
      `userReply` and `passReply` are the server's answers to the two. */
  function Login(user: string, pwd: string, userReply: Reply, passReply: Reply): (run: Run)
    requires Fits(userReply) && Fits(passReply)
    ensures run.result == 0 || run.result == -1
    ensures run.result == 0 <==>
      SendCmd(userReply) == LoginSuccess ||
      (SendCmd(userReply) == PasswordRequired && SendCmd(passReply) == LoginSuccess)
    ensures 1 <= |run.sent| <= 2 && run.sent[0] == Line("USER", user)
    ensures |run.sent| == 2 <==> SendCmd(userReply) == PasswordRequired
    ensures |run.sent| == 2 ==> run.sent[1] == Line("PASS", pwd)
  {
    var code := SendCmd(userReply);
    if code == LoginSuccess then Run([Line("USER", user)], 0)
    else if code == PasswordRequired then
      Run([Line("USER", user), Line("PASS", pwd)],
          if SendCmd(passReply) == LoginSuccess then 0 else -1)
    else Run([Line("USER", user)], -1)
  }

  /** Login against a server that answers with printed codes: 230 to USER
      logs in at once; 331 then 230 to PASS logs in; nothing else does. */
  lemma {:induction false} LoginOnCodes(user: string, pwd: string, u: nat, umsg: string, p: nat, pmsg: string)
    requires umsg == [] || !IsDigit(umsg[0])
    requires pmsg == [] || !IsDigit(pmsg[0])
    requires Fits(Text(Show(u) + umsg)) && Fits(Text(Show(p) + pmsg))
    ensures var run := Login(user, pwd, Text(Show(u) + umsg), Text(Show(p) + pmsg));
      run.result == (if u == LoginSuccess || (u == PasswordRequired && p == LoginSuccess) then 0 else -1) &&
      run.sent == (if u == PasswordRequired then [Line("USER", user), Line("PASS", pwd)]
                   else [Line("USER", user)])
  {
    SendCmdReadsCode(u, umsg);
    SendCmdReadsCode(p, pmsg);
  }

  /** `ftp_type(sock, mode)`: `TYPE <mode>`; 0 on 200, otherwise -1. */
  function Type(mode: char, r: Reply): (run: Run)
    requires Fits(r)
    ensures run.sent == [Line("TYPE", [mode])]
    ensures run.result == 0 <==> SendCmd(r) == CommandOk
    ensures run.result != 0 ==> run.result == -1
  {
    Run([Line("TYPE", [mode])], if SendCmd(r) == CommandOk then 0 else -1)
  }

  /** `ftp_noop(c_sock)`: `NOOP`; 0 on 200, otherwise -1. */
  function Noop(r: Reply): (run: Run)
    requires Fits(r)
    ensures run.sent == [Bare("NOOP")]
    ensures run.result == 0 <==> SendCmd(r) == CommandOk
    ensures run.result != 0 ==> run.result == -1
  {
    Run([Bare("NOOP")], if SendCmd(r) == CommandOk then 0 else -1)
  }

  /** `ftp_cwd(sock, path)`: `CWD <path>`; 0 on 250, otherwise -1. */
  function Cwd(path: string, r: Reply): (run: Run)
    requires Fits(r)
    ensures run.sent == [Line("CWD", path)]
    ensures run.result == 0 <==> SendCmd(r) == FileActionComplete
    ensures run.result != 0 ==> run.result == -1
  {
    Run([Line("CWD", path)], if SendCmd(r) == FileActionComplete then 0 else -1)
  }

  /** `ftp_cdup(sock)`: `CDUP`; 0 on 250 or 200, otherwise the code. */
  function Cdup(r: Reply): (run: Run)
    requires Fits(r)
    ensures run.sent == [Bare("CDUP")]
    ensures run.result == 0 <==>
      SendCmd(r) == FileActionComplete || SendCmd(r) == CommandOk || SendCmd(r) == 0
    ensures run.result != 0 ==> run.result == SendCmd(r)
  {
    var code := SendCmd(r);
    Run([Bare("CDUP")], if code == FileActionComplete || code == CommandOk then 0 else code)
  }

  /** `ftp_mkd(sock, path)`: `MKD <path>`; 0 on 257, otherwise the code. */
  function Mkd(path: string, r: Reply): (run: Run)
    requires Fits(r)
    ensures run.sent == [Line("MKD", path)]
    ensures run.result == 0 <==> SendCmd(r) == PathCreated || SendCmd(r) == 0
    ensures run.result != 0 ==> run.result == SendCmd(r)
  {
    var code := SendCmd(r);
    Run([Line("MKD", path)], if code != PathCreated then code else 0)
  }

  /** Result of `ftp_pwd`: the status, and what is copied into the caller's
      `path` buffer (`None`: the buffer is left as it was). */
  datatype PwdResult = PwdResult(status: int, path: Option<string>)

  /** `ftp_pwd(c_sock, path)`: `PWD` through the argument-taking
      `ftp_sendcmd`; 0 on 257, otherwise the code.  The second token of the
      reply (the quoted directory, with whatever follows it up to the next
      space) is copied to `path`.  `None` when the reply has fewer than two
      tokens, where `strcpy` is handed a null pointer. */
  function Pwd(r: Reply): (res: Option<PwdResult>)
    requires Fits(r)
    ensures res.None? <==> SendCmdArg(r).None?
    ensures res.Some? ==> (res.value.status == 0 <==>
      SendCmdArg(r).value.code == PathCreated || SendCmdArg(r).value.code == 0)
    ensures res.Some? && res.value.status != 0 ==> res.value.status == SendCmdArg(r).value.code
    ensures res.Some? ==> res.value.path == SendCmdArg(r).value.arg
    ensures (r.Lost? || r.text == []) ==> res == Some(PwdResult(-1, None))
  {
    match SendCmdArg(r)
    case None => None
    case Some(a) => Some(PwdResult(if a.code == PathCreated then 0 else a.code, a.arg))
  }

  /** A PWD reply `<code> <dir><rest>`, such as
      `257 "/home" is the current directory`: 0 on 257, otherwise the
      code, and the quoted directory is what lands in `path`. */
  lemma {:induction false} PwdOnReply(c: nat, dir: string, rest: string)
    requires dir != [] && ' ' !in dir && (rest == [] || rest[0] == ' ')
    requires Fits(Text(Show(c) + " " + dir + rest))
    ensures Pwd(Text(Show(c) + " " + dir + rest)) ==
      Some(PwdResult(if c == PathCreated || c == 0 then 0 else c, Some(dir)))
  {
    SendCmdArgReads(c, dir, rest);
  }

  /** `ftp_deletefolder(sock, path)`: `RMD <path>`; 0 on 250, otherwise the code. */
  function Rmd(path: string, r: Reply): (run: Run)
    requires Fits(r)
    ensures run.sent == [Line("RMD", path)]
    ensures run.result == 0 <==> SendCmd(r) == FileActionComplete || SendCmd(r) == 0
    ensures run.result != 0 ==> run.result == SendCmd(r)
  {
    var code := SendCmd(r);
    Run([Line("RMD", path)], if code == FileActionComplete then 0 else code)
  }

  /** `ftp_deletefile(sock, filename)`: `DELE <filename>`; 0 on 250,
      otherwise the code. */
  function Dele(filename: string, r: Reply): (run: Run)
    requires Fits(r)
    ensures run.sent == [Line("DELE", filename)]
    ensures run.result == 0 <==> SendCmd(r) == FileActionComplete || SendCmd(r) == 0
    ensures run.result != 0 ==> run.result == SendCmd(r)
  {
    var code := SendCmd(r);
    Run([Line("DELE", filename)], if code == FileActionComplete then 0 else code)
  }

  /** `ftp_renamefile(sock, s, d)`: `RNFR <s>`; unless the server answers
      350 its code is returned and `RNTO` is never sent.  After 350,
      `RNTO <d>`: 0 on 250, otherwise the code. */
  function Rename(from: string, to: string, rnfr: Reply, rnto: Reply): (run: Run)
    requires Fits(rnfr) && Fits(rnto)
    ensures 1 <= |run.sent| <= 2 && run.sent[0] == Line("RNFR", from)
    ensures |run.sent| == 2 <==> SendCmd(rnfr) == FileActionPending
    ensures SendCmd(rnfr) != FileActionPending ==> run.result == SendCmd(rnfr)
    ensures SendCmd(rnfr) == FileActionPending ==>
      run.sent[1] == Line("RNTO", to) &&
      (run.result == 0 <==> SendCmd(rnto) == FileActionComplete || SendCmd(rnto) == 0) &&
      (run.result != 0 ==> run.result == SendCmd(rnto))
  {
    var first := SendCmd(rnfr);
    if first != FileActionPending then Run([Line("RNFR", from)], first)
    else
      var second := SendCmd(rnto);
      Run([Line("RNFR", from), Line("RNTO", to)],
          if second == FileActionComplete then 0 else second)
  }

  /** Every command reports -1 when its exchange fails (send error, or the
      connection closed before a reply), and rename stops after RNFR. */
  lemma {:induction false} LostExchange(path: string, mode: char, r: Reply)
    requires r == Lost || r == Text([])
    ensures Type(mode, r).result == -1 && Noop(r).result == -1
    ensures Cwd(path, r).result == -1 && Cdup(r).result == -1
    ensures Mkd(path, r).result == -1 && Rmd(path, r).result == -1
    ensures Dele(path, r).result == -1
    ensures Rename(path, path, r, r) == Run([Line("RNFR", path)], -1)
  {
  }

  /** A reply that carries no number (say `Directory created.\r\n`) leaves
      `result` at the 0 the successful exchange stored, so MKD, CDUP, RMD,
      DELE and RNTO report success while CWD, TYPE and NOOP, which test
      for their one success code, report failure. */
  lemma {:induction false} UnnumberedReplySucceeds(path: string, mode: char, rnfr: Reply, s: string)
    requires Fits(rnfr) && SendCmd(rnfr) == FileActionPending
    requires Fits(Text(s)) && s != []
    requires forall i :: 0 <= i < |s| ==> !IsDigit(s[i])
    ensures Mkd(path, Text(s)).result == 0 && Cdup(Text(s)).result == 0
    ensures Rmd(path, Text(s)).result == 0 && Dele(path, Text(s)).result == 0
    ensures Rename(path, path, rnfr, Text(s)).result == 0
    ensures Cwd(path, Text(s)).result == -1 && Type(mode, Text(s)).result == -1
    ensures Noop(Text(s)).result == -1
  {
    SendCmdUnnumbered(s);
  }

  /** The single commands on a reply that starts with a printed code `c`:
      each returns 0 exactly on its success codes, and otherwise -1 (TYPE,
      NOOP, CWD) or the code itself (CDUP, MKD, RMD, DELE). */
  lemma {:induction false} CommandsOnCode(path: string, mode: char, c: nat, msg: string)
    requires msg == [] || !IsDigit(msg[0])
    requires Fits(Text(Show(c) + msg))
    ensures var r := Text(Show(c) + msg);
      Type(mode, r).result == (if c == 200 then 0 else -1) &&
      Noop(r).result == (if c == 200 then 0 else -1) &&
      Cwd(path, r).result == (if c == 250 then 0 else -1) &&
      Cdup(r).result == (if c == 250 || c == 200 then 0 else c) &&
      Mkd(path, r).result == (if c == 257 then 0 else c) &&
      Rmd(path, r).result == (if c == 250 then 0 else c) &&
      Dele(path, r).result == (if c == 250 then 0 else c)
  {
    SendCmdReadsCode(c, msg);
  }

  /** The client object `FTPAPI`: `clientSocket` is the control connection
      the public members operate on. */
  class FtpApi {
    var clientSocket: int

    /** The class declares no constructor and leaves `clientSocket`
        uninitialised: `garbage` stands for whatever value it starts with. */
    constructor (garbage: int)
      ensures clientSocket == garbage
    {
      clientSocket := garbage;
    }

    /** `login_server(ip, port, user, pwd)`: `connected` is what
        `connect_server` returned (the socket, or -1 when the host cannot be
        reached or does not greet with 220).  The result is -1 when it could
        not connect, -2 when the login handshake fails, and otherwise the
        socket; the field keeps whatever `connect_server` returned. */
    method LoginServer(connected: int, user: string, pwd: string, userReply: Reply, passReply: Reply)
      returns (res: int, sent: seq<string>)
      requires connected >= -1
      requires Fits(userReply) && Fits(passReply)
      modifies this
      ensures clientSocket == connected
      ensures res == -1 <==> connected == -1
      ensures res == -2 <==> connected != -1 && Login(user, pwd, userReply, passReply).result != 0
      ensures res >= 0 ==> res == connected && Login(user, pwd, userReply, passReply).result == 0
      ensures connected != -1 && Login(user, pwd, userReply, passReply).result == 0 ==> res == connected
      ensures connected == -1 ==> sent == []
      ensures connected != -1 ==> sent == Login(user, pwd, userReply, passReply).sent
    {
      clientSocket := connected;
      if clientSocket == -1 {
        return -1, [];
      }
      var run := Login(user, pwd, userReply, passReply);
      sent := run.sent;
      if run.result == -1 {
        res := -2;
        return;
      }
      res := clientSocket;
    }
  }
}
