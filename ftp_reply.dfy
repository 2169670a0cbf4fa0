/** Reply decoding on the control channel: the status codes of RFC 959
    section 4.2 that the client tests for, the C library scanners it uses
    (`sscanf "%d"`, `strtok` on spaces, `atoi`), and the two `ftp_sendcmd`
    overloads plus `ftp_filesize` built on them. */
module FtpReply {
  import opened FtpCommon

  // Reply codes the client compares against (RFC 959, section 4.2).
  const DataConnectionOpen: int := 150
  const CommandOk: int := 200
  const FileStatus: int := 213
  const DataConnectionClose: int := 226
  const LoginSuccess: int := 230
  const FileActionComplete: int := 250
  const PathCreated: int := 257
  const PasswordRequired: int := 331
  const FileActionPending: int := 350
  const FileUnavailable: int := 550

  /** One command/reply exchange as the client sees it: `Lost` when `send`
      fails or `recv` reports an error; otherwise the bytes `recv` delivered
      (empty when the peer closed the connection). */
  datatype Reply = Lost | Text(text: string)

  /** A reply the C++ code can hold: `recv` fills at most `BUFSIZE` bytes
      and the code then stores a terminating NUL at `buf[len]`, so only a
      reply shorter than the buffer stays inside it; an embedded NUL would
      cut the C string short. */
  predicate Fits(r: Reply) {
    r.Text? ==> |r.text| < BufSize && '\0' !in r.text
  }

  /** The characters C's `isspace` accepts: space, and `\t` through `\r`. */
  predicate IsSpace(c: char) { c == ' ' || '\t' <= c <= '\r' }

  predicate IsDigit(c: char) { '0' <= c <= '9' }

  predicate AllDigits(s: string) { forall i :: 0 <= i < |s| ==> IsDigit(s[i]) }

  function DigitValue(c: char): (d: nat)
    requires IsDigit(c)
    ensures d < 10
  {
    c as int - '0' as int
  }

  function DigitChar(d: nat): (c: char)
    requires d < 10
    ensures IsDigit(c) && DigitValue(c) == d
  {
    ('0' as int + d) as char
  }

  /** Decimal text of a natural number, as `%d` / `%ld` print it. */
  function Show(n: nat): (s: string)
    ensures |s| >= 1 && AllDigits(s)
    decreases n
  {
    if n < 10 then [DigitChar(n)] else Show(n / 10) + [DigitChar(n % 10)]
  }

  function SkipSpace(s: string): (t: string)
    ensures |t| <= |s|
    ensures t == [] || !IsSpace(t[0])
  {
    if s != [] && IsSpace(s[0]) then SkipSpace(s[1..]) else s
  }

  lemma {:induction false} SkipSpaceSuffix(s: string)
    ensures SkipSpace(s) == s[|s| - |SkipSpace(s)|..]
    decreases |s|
  {
    if s != [] && IsSpace(s[0]) {
      SkipSpaceSuffix(s[1..]);
    }
  }

  /** A scanned integer and the text after it. */
  datatype Scan = Scan(value: int, rest: string)

  /** Accumulate the longest run of decimal digits at the front of `s`. */
  function ScanDigits(s: string, acc: int): (r: Scan)
    ensures |r.rest| <= |s|
    ensures r.rest == [] || !IsDigit(r.rest[0])
    decreases |s|
  {
    if s != [] && IsDigit(s[0]) then ScanDigits(s[1..], acc * 10 + DigitValue(s[0]))
    else Scan(acc, s)
  }

  /** `sscanf(text, "%d", &v)`: skip white space, accept an optional sign,
      then require at least one digit.  `None` is a matching failure, in
      which case `sscanf` leaves `v` as it was. */
  function ScanInt(s: string): (r: Option<Scan>)
    ensures r.Some? <==>
      var t := SkipSpace(s);
      (|t| > 0 && IsDigit(t[0])) || (|t| > 1 && (t[0] == '+' || t[0] == '-') && IsDigit(t[1]))
    ensures r.Some? ==> |r.value.rest| < |s|
    ensures r.Some? ==> r.value.rest == [] || !IsDigit(r.value.rest[0])
  {
    var t := SkipSpace(s);
    if |t| > 0 && IsDigit(t[0]) then
      Some(ScanDigits(t, 0))
    else if |t| > 1 && (t[0] == '+' || t[0] == '-') && IsDigit(t[1]) then
      var d := ScanDigits(t[1..], 0);
      Some(Scan(if t[0] == '-' then -d.value else d.value, d.rest))
    else None
  }

  /** `atoi`: the integer `%d` would read, or 0 when there is none. */
  function Atoi(s: string): int {
    match ScanInt(s)
    case Some(sc) => sc.value
    case None => 0
  }

  lemma {:induction false} ScanDigitsAppend(x: string, t: string, acc: int)
    requires AllDigits(x)
    ensures ScanDigits(x + t, acc) == ScanDigits(t, ScanDigits(x, acc).value)
    decreases |x|
  {
    if x == [] {
      assert x + t == t;
    } else {
      assert (x + t)[1..] == x[1..] + t;
      ScanDigitsAppend(x[1..], t, acc * 10 + DigitValue(x[0]));
    }
  }

  lemma {:induction false} ScanDigitsSnoc(x: string, d: char, acc: int)
    requires AllDigits(x) && IsDigit(d)
    ensures ScanDigits(x + [d], acc).value == ScanDigits(x, acc).value * 10 + DigitValue(d)
    decreases |x|
  {
    if x == [] {
      assert ScanDigits([d], acc) == ScanDigits([], acc * 10 + DigitValue(d));
    } else {
      assert (x + [d])[1..] == x[1..] + [d];
      ScanDigitsSnoc(x[1..], d, acc * 10 + DigitValue(x[0]));
    }
  }

  /** Reading back the decimal text of `n` gives `n`. */
  lemma {:induction false} ScanDigitsShow(n: nat)
    ensures ScanDigits(Show(n), 0).value == n
    decreases n
  {
    if n >= 10 {
      ScanDigitsShow(n / 10);
      ScanDigitsSnoc(Show(n / 10), DigitChar(n % 10), 0);
    }
  }

  /** `%d` round trip: the number printed in front of any text that does not
      continue with a digit is read back exactly, and scanning stops right
      after it. */
  lemma {:induction false} ScanIntShow(n: nat, rest: string)
    requires rest == [] || !IsDigit(rest[0])
    ensures ScanInt(Show(n) + rest) == Some(Scan(n, rest))
  {
    var s := Show(n) + rest;
    assert IsDigit(s[0]);
    assert SkipSpace(s) == s;
    ScanDigitsAppend(Show(n), rest, 0);
    ScanDigitsShow(n);
    assert ScanDigits(rest, n) == Scan(n, rest);
  }

  // ---- strtok(buf, " ") -------------------------------------------------

  function DropSpaces(s: string): (t: string)
    ensures |t| <= |s|
    ensures t == [] || t[0] != ' '
    ensures forall i :: 0 <= i < |s| - |t| ==> s[i] == ' '
  {
    if s != [] && s[0] == ' ' then DropSpaces(s[1..]) else s
  }

  lemma {:induction false} DropSpacesSuffix(s: string)
    ensures DropSpaces(s) == s[|s| - |DropSpaces(s)|..]
    decreases |s|
  {
    if s != [] && s[0] == ' ' {
      DropSpacesSuffix(s[1..]);
    }
  }

  function TokenLen(s: string): (k: nat)
    ensures k <= |s| && (k == |s| || s[k] == ' ')
    ensures forall i :: 0 <= i < k ==> s[i] != ' '
  {
    if s == [] || s[0] == ' ' then 0 else 1 + TokenLen(s[1..])
  }

  /** A token and the text after it (which is empty or starts with a space). */
  datatype Token = Token(text: string, rest: string)

  /** One `strtok(…, " ")` step: the next maximal run of non-space
      characters, or `None` (a null pointer) when only spaces remain.  Only
      the space character separates tokens, so `\r\n` stays on a token. */
  function NextToken(s: string): (r: Option<Token>)
    ensures r.None? <==> forall i :: 0 <= i < |s| ==> s[i] == ' '
    ensures r.Some? ==>
      && r.value.text != []
      && (forall i :: 0 <= i < |r.value.text| ==> r.value.text[i] != ' ')
      && (r.value.rest == [] || r.value.rest[0] == ' ')
      && |r.value.text| + |r.value.rest| <= |s|
  {
    var t := DropSpaces(s);
    DropSpacesSuffix(s);
    if t == [] then None
    else
      assert s[|s| - |t|] == t[0];
      var k := TokenLen(t);
      Some(Token(t[..k], t[k..]))
  }

  /** The token found is what follows the leading spaces, and the rest is
      what follows the token. */
  lemma {:induction false} NextTokenDecomposes(s: string)
    requires NextToken(s).Some?
    ensures var tok := NextToken(s).value;
      var lead := |s| - |tok.text| - |tok.rest|;
      && s == s[..lead] + tok.text + tok.rest
      && (forall i :: 0 <= i < lead ==> s[i] == ' ')
  {
    var t := DropSpaces(s);
    DropSpacesSuffix(s);
    var k := TokenLen(t);
    assert s == s[..|s| - |t|] + t[..k] + t[k..];
  }

  lemma {:induction false} TokenLenAppend(x: string, y: string)
    requires forall i :: 0 <= i < |x| ==> x[i] != ' '
    requires y == [] || y[0] == ' '
    ensures TokenLen(x + y) == |x|
    decreases |x|
  {
    if x != [] {
      assert (x + y)[1..] == x[1..] + y;
      TokenLenAppend(x[1..], y);
    }
  }

  // ---- ftp_sendcmd ------------------------------------------------------

  /** `ftp_sendcmd(sock, cmd)`: -1 when the send fails or `recv` yields
      fewer than one byte; otherwise the `%d` at the front of the reply, and
      0 (the value `result` already held) when the reply has none. */
  function SendCmd(r: Reply): (code: int)
    requires Fits(r)
    ensures (r.Lost? || r.text == []) ==> code == -1
  {
    if r.Lost? || r.text == [] then -1
    else match ScanInt(r.text)
      case Some(sc) => sc.value
      case None => 0
  }

  /** A reply that starts with a three-digit code yields that code. */
  lemma {:induction false} SendCmdReadsCode(c: nat, msg: string)
    requires msg == [] || !IsDigit(msg[0])
    requires Fits(Text(Show(c) + msg))
    ensures SendCmd(Text(Show(c) + msg)) == c
  {
    ScanIntShow(c, msg);
  }

  /** A non-empty reply without a leading integer reads as 0, the value the
      exchange itself returned on success. */
  lemma {:induction false} SendCmdUnnumbered(s: string)
    requires Fits(Text(s)) && s != []
    requires forall i :: 0 <= i < |s| ==> !IsDigit(s[i])
    ensures SendCmd(Text(s)) == 0
  {
    ScanIntNoDigits(s);
  }

  /** `%d` fails on text without a digit. */
  lemma {:induction false} ScanIntNoDigits(s: string)
    requires forall i :: 0 <= i < |s| ==> !IsDigit(s[i])
    ensures ScanInt(s).None?
  {
    var t := SkipSpace(s);
    SkipSpaceSuffix(s);
    if |t| > 0 {
      assert t[0] == s[|s| - |t|];
    }
    if |t| > 1 {
      assert t[1] == s[|s| - |t| + 1];
    }
  }

  /** Code and second token of a reply.  `arg` is `None` when the exchange
      failed and the caller's answer buffer was left untouched. */
  datatype ArgReply = ArgReply(code: int, arg: Option<string>)

  /** `ftp_sendcmd(sock, cmd, ans)`: the first space-separated token is
      scanned with `%d` (0 when it holds no integer) and the second token is
      copied to `ans`.  `None`: the reply has fewer than two tokens, and the
      C++ code hands a null pointer from `strtok` to `sscanf` or `strcpy`. */
  function SendCmdArg(r: Reply): (res: Option<ArgReply>)
    requires Fits(r)
    ensures (r.Lost? || r.text == []) ==> res == Some(ArgReply(-1, None))
    ensures res.None? <==> (r.Text? && r.text != [] &&
      (NextToken(r.text).None? || NextToken(NextToken(r.text).value.rest).None?))
    ensures res.Some? && res.value.arg.Some? ==>
      r.Text? && var a := res.value.arg.value;
      a != [] && (forall i :: 0 <= i < |a| ==> a[i] != ' ') && |a| < |r.text|
    ensures res.Some? && res.value.arg.Some? ==>
      r.Text? && NextToken(r.text).Some? && NextToken(NextToken(r.text).value.rest).Some? &&
      res.value.arg.value == NextToken(NextToken(r.text).value.rest).value.text
  {
    if r.Lost? || r.text == [] then Some(ArgReply(-1, None))
    else match NextToken(r.text)
      case None => None
      case Some(first) =>
        match NextToken(first.rest)
        case None => None
        case Some(second) =>
          var code := match ScanInt(first.text) case Some(sc) => sc.value case None => 0;
          Some(ArgReply(code, Some(second.text)))
  }

  lemma {:induction false} NextTokenSplit(x: string, y: string)
    requires x != [] && forall i :: 0 <= i < |x| ==> x[i] != ' '
    requires y == [] || y[0] == ' '
    ensures NextToken(x + y) == Some(Token(x, y))
  {
    assert (x + y)[0] == x[0];
    assert DropSpaces(x + y) == x + y;
    TokenLenAppend(x, y);
    assert (x + y)[..|x|] == x && (x + y)[|x|..] == y;
  }

  lemma {:induction false} NextTokenSkipsSpace(u: string)
    ensures NextToken([' '] + u) == NextToken(u)
  {
    assert ([' '] + u)[1..] == u;
    assert DropSpaces([' '] + u) == DropSpaces(u);
  }

  lemma {:induction false} SendCmdArgTokens(s: string, first: Token, second: Token)
    requires Fits(Text(s)) && s != []
    requires NextToken(s) == Some(first) && NextToken(first.rest) == Some(second)
    ensures SendCmdArg(Text(s)) ==
      Some(ArgReply(match ScanInt(first.text) case Some(sc) => sc.value case None => 0, Some(second.text)))
  {
  }

  /** `ftp_sendcmd` on a reply `<code> <token><rest>`, where `rest` is
      empty or starts with a space (as in `550 No such file\r\n`, or
      `257 "/" is the current directory`): the code, and the second token
      as the answer. */
  lemma {:induction false} SendCmdArgReads(c: nat, tok: string, rest: string)
    requires tok != [] && ' ' !in tok && (rest == [] || rest[0] == ' ')
    requires Fits(Text(Show(c) + " " + tok + rest))
    ensures SendCmdArg(Text(Show(c) + " " + tok + rest)) == Some(ArgReply(c, Some(tok)))
  {
    var x := Show(c);
    ScanIntShow(c, []);
    assert x + [] == x;
    DigitsHaveNoSpace(x);
    TokensOfReply(x, tok, rest);
    Regroup(x, ' ', tok, rest);
    SendCmdArgTokens(x + ([' '] + (tok + rest)), Token(x, [' '] + (tok + rest)), Token(tok, rest));
  }

  lemma {:induction false} DigitsHaveNoSpace(x: string)
    requires AllDigits(x)
    ensures ' ' !in x
  {
    forall i | 0 <= i < |x| ensures x[i] != ' ' { assert IsDigit(x[i]); }
  }

  /** The two tokens of `<x> <tok><rest>`. */
  lemma {:induction false} TokensOfReply(x: string, tok: string, rest: string)
    requires x != [] && ' ' !in x && tok != [] && ' ' !in tok && (rest == [] || rest[0] == ' ')
    ensures NextToken(x + ([' '] + (tok + rest))) == Some(Token(x, [' '] + (tok + rest)))
    ensures NextToken([' '] + (tok + rest)) == Some(Token(tok, rest))
  {
    NextTokenSplit(x, [' '] + (tok + rest));
    NextTokenSkipsSpace(tok + rest);
    NextTokenSplit(tok, rest);
  }

  /** `ftp_sendcmd` on a reply `<code> <number><tail>` yields the code and
      the whole second token, tail included; `atoi` of that token is the
      number. */
  lemma {:induction false} SendCmdArgShow(c: nat, n: nat, tail: string)
    requires ' ' !in tail && (tail == [] || !IsDigit(tail[0]))
    requires Fits(Text(Show(c) + " " + Show(n) + tail))
    ensures SendCmdArg(Text(Show(c) + " " + Show(n) + tail)) == Some(ArgReply(c, Some(Show(n) + tail)))
    ensures Atoi(Show(n) + tail) == n
  {
    var y := Show(n);
    var u := y + tail;
    assert ' ' !in u by {
      forall i | 0 <= i < |u| ensures u[i] != ' ' {
        if i < |y| { assert IsDigit(y[i]); } else { assert u[i] == tail[i - |y|]; }
      }
    }
    assert Show(c) + " " + Show(n) + tail == Show(c) + " " + u + [];
    SendCmdArgReads(c, u, []);
    ScanIntShow(n, tail);
  }

  /** `ftp_filesize` result: `status` is 0 for a 213 reply and otherwise the
      scanned code; `size` is `atoi` of the second token, `None` when the
      exchange failed and `atoi` read an uninitialised buffer. */
  datatype SizeReply = SizeReply(status: int, size: Option<int>)

  /** `ftp_filesize`: SIZE through the argument-taking `ftp_sendcmd`. */
  function FileSize(r: Reply): (res: Option<SizeReply>)
    requires Fits(r)
    ensures res.None? <==> SendCmdArg(r).None?
    ensures res.None? <==> (r.Text? && r.text != [] &&
      (NextToken(r.text).None? || NextToken(NextToken(r.text).value.rest).None?))
    ensures res.Some? ==> (res.value.status == 0 <==>
      SendCmdArg(r).value.code == FileStatus || SendCmdArg(r).value.code == 0)
    ensures res.Some? && res.value.status == 0 ==> res.value.size.Some?
    ensures res.Some? && res.value.status != 0 ==> res.value.status == SendCmdArg(r).value.code
  {
    match SendCmdArg(r)
    case None => None
    case Some(a) =>
      var size := match a.arg case Some(t) => Some(Atoi(t)) case None => None;
      Some(SizeReply(if a.code == FileStatus then 0 else a.code, size))
  }

  /** A reply `<code> <token><rest>` to SIZE: status 0 on 213 (or a
      literal 0) and otherwise the code, with `atoi` of the second token as
      the size, whatever the token holds (`550 No such file` gives 0). */
  lemma {:induction false} FileSizeOnReply(c: nat, tok: string, rest: string)
    requires tok != [] && ' ' !in tok && (rest == [] || rest[0] == ' ')
    requires Fits(Text(Show(c) + " " + tok + rest))
    ensures FileSize(Text(Show(c) + " " + tok + rest)) ==
      Some(SizeReply(if c == FileStatus || c == 0 then 0 else c, Some(Atoi(tok))))
  {
    SendCmdArgReads(c, tok, rest);
  }

  /** A `213 <size><tail>` reply, such as `213 3582\r\n`, makes the size
      query succeed with that size; any other leading code is passed back. */
  lemma {:induction false} FileSizeReads(c: nat, n: nat, tail: string)
    requires ' ' !in tail && (tail == [] || !IsDigit(tail[0]))
    requires Fits(Text(Show(c) + " " + Show(n) + tail))
    ensures FileSize(Text(Show(c) + " " + Show(n) + tail)) ==
      Some(SizeReply(if c == FileStatus || c == 0 then 0 else c, Some(n)))
  {
    SendCmdArgShow(c, n, tail);
  }

  /** `213 3582\r\n` reports a 3582-byte file. */
  lemma {:induction false} FileSizeExample()
    ensures FileSize(Text("213" + " " + "3582" + "\r\n")) == Some(SizeReply(0, Some(3582)))
  {
    assert Show(213) == "213" by { assert Show(21) == "21"; }
    assert Show(3582) == "3582" by { assert Show(358) == "358" by { assert Show(35) == "35"; } }
    FileSizeReads(213, 3582, "\r\n");
  }

  /** The status read after a transfer: one receive into the buffer, a
      terminating NUL at the received length, and a `%d` scan into a
      `result` that holds `prior` (`Unspecified` when it was never
      assigned).  On a receive error the NUL lands before the buffer, so
      nothing is promised; an empty or unnumbered reply leaves `prior`. */
  function RecvCode(r: Reply, prior: Outcome): (o: Outcome)
    requires Fits(r)
    ensures r.Lost? ==> o.Unspecified?
    ensures r.Text? && ScanInt(r.text).None? ==> o == prior
    ensures r.Text? && ScanInt(r.text).Some? ==> o == Ret(ScanInt(r.text).value.value)
  {
    if r.Lost? then Unspecified
    else match ScanInt(r.text)
      case Some(sc) => Ret(sc.value)
      case None => prior
  }

  /** The end of a transfer: 0 when the status read is 226, and otherwise
      that status. */
  function TransferDone(r: Reply, prior: Outcome): (o: Outcome)
    requires Fits(r)
    ensures o.Unspecified? <==> RecvCode(r, prior).Unspecified?
    ensures o == Ret(0) <==>
      RecvCode(r, prior) == Ret(DataConnectionClose) || RecvCode(r, prior) == Ret(0)
    ensures o.Ret? && o.value != 0 ==> o == RecvCode(r, prior)
  {
    match RecvCode(r, prior)
    case Unspecified => Unspecified
    case Ret(c) => if c == DataConnectionClose then Ret(0) else Ret(c)
  }

  /** A transfer ends in success exactly when the server's closing reply
      carries 226 (or a literal 0), whatever the client held before; a
      closing reply without a number reports the code the client held
      before, `prior`, and nothing can be promised when that was never
      assigned or when the reply is lost. */
  lemma {:induction false} TransferDoneOnCode(c: nat, msg: string, prior: Outcome, s: string)
    requires msg == [] || !IsDigit(msg[0])
    requires Fits(Text(Show(c) + msg))
    requires Fits(Text(s)) && forall i :: 0 <= i < |s| ==> !IsDigit(s[i])
    ensures TransferDone(Text(Show(c) + msg), prior) == Ret(if c == DataConnectionClose then 0 else c)
    ensures TransferDone(Text(s), prior) ==
      match prior
      case Unspecified => Unspecified
      case Ret(p) => Ret(if p == DataConnectionClose then 0 else p)
    ensures TransferDone(Lost, prior) == Unspecified
  {
    ScanIntShow(c, msg);
    ScanIntNoDigits(s);
  }
}
