/** Uploads: `ftp_replace` (TYPE I, PASV, STOR) overwrites the remote file
    with the local one, and `ftp_append` (TYPE I, PASV, SIZE, APPE) resumes
    an interrupted upload from the size the server reports.  Both stream the
    local file over the data connection in `BUFSIZE`-byte blocks. */
module FtpUpload {
  import opened FtpCommon
  import opened FtpReply
  import opened FtpPasv
  import opened FtpCommands

  /** The send loop shared by both uploads: `fread` up to `BUFSIZE` bytes,
      `send` them, and stop at the first block the socket does not take in
      full (`shortAt`), or silently at the block where `fread` returns 0
      because of a read error (`stopAt`), as at the end of the file.  `wire`
      is what reached the data connection. */
  method SendAll(data: seq<byte>, stopAt: Option<nat>, shortAt: Option<nat>) returns (ok: bool, wire: seq<byte>)
    ensures ok == !CopyFails(data, stopAt, shortAt)
    ensures wire == Copied(data, stopAt, shortAt)
  {
    var pos := 0;
    var k := 0;
    wire := [];
    while pos < |data| && stopAt != Some(k)
      invariant 0 <= pos <= |data|
      invariant pos < |data| ==> pos == k * BufSize
      invariant pos <= k * BufSize
      invariant shortAt.Some? ==> shortAt.value >= k
      invariant stopAt.Some? ==> stopAt.value >= k
      invariant wire == data[..pos]
      decreases |data| - pos
    {
      var n := Min(BufSize, |data| - pos);
      if shortAt == Some(k) {
        CopyFailsWhen(data, stopAt, shortAt);
        return false, wire;
      }
      assert data[..pos] + data[pos..pos + n] == data[..pos + n];
      wire := wire + data[pos..pos + n];
      pos := pos + n;
      k := k + 1;
    }
    CopyFailsWhen(data, stopAt, shortAt);
    ok := true;
  }

  /** What the local file system and the server do during one upload:
      whether the local file opens, the replies to TYPE, PASV and SIZE,
      whether the data connection is established, the reply to STOR or
      APPE, the block at which reading the local file fails, if any, the
      block whose `send` comes up short, if any, and the closing reply. */
  datatype UploadEnv = UploadEnv(
    localOpens: bool, typeReply: Reply, pasvReply: Reply, connects: bool,
    sizeReply: Reply, cmdReply: Reply, readStopsAt: Option<nat>, shortAt: Option<nat>,
    finalReply: Reply)

  predicate UploadFits(env: UploadEnv) {
    Fits(env.typeReply) && Fits(env.pasvReply) && Fits(env.sizeReply) &&
    Fits(env.cmdReply) && Fits(env.finalReply)
  }

  /** The end of both uploads, once the server has answered 150: the send
      loop over `data`, then `failCode` when a block is not sent in full,
      and otherwise the closing reply read into the never-assigned
      `result`.  A read error ends the loop like the end of the file, so
      the upload can report success with only part of `data` sent. */
  method Finish(data: seq<byte>, failCode: int, env: UploadEnv) returns (res: Outcome, wire: seq<byte>)
    requires Fits(env.finalReply)
    ensures wire == Copied(data, env.readStopsAt, env.shortAt)
    ensures res == if CopyFails(data, env.readStopsAt, env.shortAt) then Ret(failCode)
                   else TransferDone(env.finalReply, Unspecified)
    ensures !CopyFails(data, env.readStopsAt, env.shortAt) ==>
      (wire == data <==> !BlockFails(|data|, env.readStopsAt))
  {
    var ok;
    ok, wire := SendAll(data, env.readStopsAt, env.shortAt);
    if !ok {
      return Ret(failCode), wire;
    }
    CopyCompletes(data, env.readStopsAt, env.shortAt);
    res := TransferDone(env.finalReply, Unspecified);
  }

  /** `ftp_replace(c_sock, s, d)`: -1 when the local file does not open,
      -2 when the data connection fails, the STOR code when it is not 150,
      -1 again when a block is not sent in full, and otherwise 0 when the
      closing reply carries 226, even when a read error cut the local file
      short.  `result` is never assigned before the
      closing reply is scanned, so an unnumbered closing reply gives no
      defined value.  An unnumbered STOR reply reads as 0 and so reports
      success without sending anything. */
  method Replace(local: seq<byte>, d: string, env: UploadEnv)
    returns (res: Outcome, sent: seq<string>, wire: seq<byte>)
    requires UploadFits(env)
    ensures !env.localOpens ==> res == Ret(-1) && sent == [] && wire == []
    ensures env.localOpens ==>
      2 <= |sent| <= 3 && sent[0] == Line("TYPE", "I") && sent[1] == Bare("PASV")
    ensures env.localOpens ==> (|sent| == 3 <==> env.connects)
    ensures |sent| == 3 ==> sent[2] == Line("STOR", d)
    ensures env.localOpens && !env.connects ==> res == Ret(-2) && wire == []
    ensures env.localOpens && env.connects && SendCmd(env.cmdReply) != DataConnectionOpen ==>
      res == Ret(SendCmd(env.cmdReply)) && wire == []
    ensures env.localOpens && env.connects && SendCmd(env.cmdReply) == DataConnectionOpen ==>
      wire == Copied(local, env.readStopsAt, env.shortAt) &&
      res == (if CopyFails(local, env.readStopsAt, env.shortAt) then Ret(-1)
              else TransferDone(env.finalReply, Unspecified))
    ensures res == Ret(0) ==>
      ((wire == local <==> !BlockFails(|local|, env.readStopsAt)) &&
       RecvCode(env.finalReply, Unspecified) in {Ret(DataConnectionClose), Ret(0)}) ||
      (wire == [] && SendCmd(env.cmdReply) == 0)
  {
    sent := [];
    wire := [];
    if !env.localOpens {
      return Ret(-1), sent, wire;
    }
    sent := Type('I', env.typeReply).sent + [Bare("PASV")];
    if PasvConnect(env.pasvReply, env.connects).PasvFailed? {
      return Ret(-2), sent, wire;
    }
    sent := sent + [Line("STOR", d)];
    var code := SendCmd(env.cmdReply);
    if code != DataConnectionOpen {
      return Ret(code), sent, wire;
    }
    res, wire := Finish(local, -1, env);
  }

  /** How `ftp_append` reacts to the SIZE reply: it gives up with the
      status (or with no defined value when the reply has fewer than two
      tokens), or it resumes from an offset. */
  datatype Resume = GiveUp(code: Outcome) | ResumeAt(offset: int)

  /** The SIZE step of `ftp_append`: a 213 reply resumes from the size the
      server reports, a 550 reply (no such file yet) from the start, and
      any other status ends the upload with that status. */
  function ResumeFrom(r: Reply): (p: Resume)
    requires Fits(r)
    ensures FileSize(r).None? ==> p == GiveUp(Unspecified)
    ensures FileSize(r).Some? ==>
      var st := FileSize(r).value.status;
      (p.GiveUp? <==> st != 0 && st != FileUnavailable) &&
      (p.GiveUp? ==> p.code == Ret(st)) &&
      (st == FileUnavailable ==> p == ResumeAt(0)) &&
      (st == 0 ==> p == ResumeAt(FileSize(r).value.size.value))
  {
    match FileSize(r)
    case None => GiveUp(Unspecified)
    case Some(fs) =>
      if fs.status == FileUnavailable then ResumeAt(0)
      else if fs.status != 0 then GiveUp(Ret(fs.status))
      else ResumeAt(fs.size.value)
  }

  /** The replies a server gives to SIZE, `<code> <token><rest>`: 213
      resumes at `atoi` of the token, a 550 refusal (whatever text follows
      it, as in `550 No such file`) starts from the beginning, and any other
      leading code (other than 0) ends the upload with that code. */
  lemma {:induction false} ResumeFromOnReplies(c: nat, tok: string, rest: string)
    requires tok != [] && ' ' !in tok && (rest == [] || rest[0] == ' ')
    requires Fits(Text(Show(c) + " " + tok + rest))
    ensures ResumeFrom(Text(Show(c) + " " + tok + rest)) ==
      if c == FileStatus || c == 0 then ResumeAt(Atoi(tok))
      else if c == FileUnavailable then ResumeAt(0)
      else GiveUp(Ret(c))
  {
    FileSizeOnReply(c, tok, rest);
  }

  /** `213 <n><tail>` resumes the upload at byte `n`. */
  lemma {:induction false} ResumeFromSize(n: nat, tail: string)
    requires ' ' !in tail && (tail == [] || !IsDigit(tail[0]))
    requires Fits(Text(Show(FileStatus) + " " + Show(n) + tail))
    ensures ResumeFrom(Text(Show(FileStatus) + " " + Show(n) + tail)) == ResumeAt(n)
  {
    FileSizeReads(FileStatus, n, tail);
  }

  /** `550 No such file\r\n`: the file is not on the server yet, so the
      upload starts from the first byte. */
  lemma {:induction false} ResumeFromRefusal()
    ensures ResumeFrom(Text("550" + " " + "No" + " such file\r\n")) == ResumeAt(0)
  {
    assert Show(550) == "550" by { assert Show(55) == "55"; }
    assert Fits(Text(Show(550) + " " + "No" + " such file\r\n"));
    ResumeFromOnReplies(550, "No", " such file\r\n");
    assert ResumeFrom(Text(Show(550) + " " + "No" + " such file\r\n")) == ResumeAt(0);
  }

  /** Where the local file is read from after `fseek(fp, offset,
      SEEK_SET)`: a negative offset makes `fseek` fail and leaves the
      position at the start. */
  function SeekFrom(offset: int): (p: nat)
    ensures offset >= 0 ==> p == offset
    ensures offset < 0 ==> p == 0
  {
    if offset < 0 then 0 else offset
  }

  /** `ftp_append(c_sock, s, d)`: -1 when the local file does not open, -2
      when the data connection fails, the SIZE status unless it is 0 or
      550, 0 without sending APPE when the server already holds at least
      as many bytes as the local file, the APPE code when it is not 150,
      -3 when a block is not sent in full, and otherwise 0 when the
      closing reply carries 226 (a read error ends the upload early, as the
      end of the file would).  The data connection is opened before the
      size is asked for.  A completed upload of the tail leaves the server
      holding the local file, provided the server held its head. */
  method Append(local: seq<byte>, d: string, env: UploadEnv)
    returns (res: Outcome, sent: seq<string>, wire: seq<byte>)
    requires UploadFits(env)
    ensures !env.localOpens ==> res == Ret(-1) && sent == [] && wire == []
    ensures env.localOpens ==>
      2 <= |sent| <= 4 && sent[0] == Line("TYPE", "I") && sent[1] == Bare("PASV")
    ensures env.localOpens ==> (|sent| >= 3 <==> env.connects)
    ensures |sent| >= 3 ==> sent[2] == Line("SIZE", d)
    ensures |sent| == 4 ==> sent[3] == Line("APPE", d)
    ensures env.localOpens && !env.connects ==> res == Ret(-2) && wire == []
    ensures env.localOpens && env.connects && ResumeFrom(env.sizeReply).GiveUp? ==>
      res == ResumeFrom(env.sizeReply).code && |sent| == 3 && wire == []
    ensures env.localOpens && env.connects && ResumeFrom(env.sizeReply).ResumeAt? ==>
      var at := ResumeFrom(env.sizeReply).offset;
      (|local| <= at ==> res == Ret(0) && |sent| == 3 && wire == []) &&
      (|local| > at ==> |sent| == 4) &&
      (|local| > at && SendCmd(env.cmdReply) != DataConnectionOpen ==>
         res == Ret(SendCmd(env.cmdReply)) && wire == []) &&
      (|local| > at && SendCmd(env.cmdReply) == DataConnectionOpen ==>
         var from := SeekFrom(at);
         wire == Copied(local[from..], env.readStopsAt, env.shortAt) &&
         res == (if CopyFails(local[from..], env.readStopsAt, env.shortAt) then Ret(-3)
                 else TransferDone(env.finalReply, Unspecified)) &&
         (!CopyFails(local[from..], env.readStopsAt, env.shortAt) ==>
            (local[..from] + wire == local <==> !BlockFails(|local| - from, env.readStopsAt))))
  {
    sent := [];
    wire := [];
    if !env.localOpens {
      return Ret(-1), sent, wire;
    }
    sent := Type('I', env.typeReply).sent + [Bare("PASV")];
    if PasvConnect(env.pasvReply, env.connects).PasvFailed? {
      return Ret(-2), sent, wire;
    }
    sent := sent + [Line("SIZE", d)];
    var resume := ResumeFrom(env.sizeReply);
    if resume.GiveUp? {
      return resume.code, sent, wire;
    }
    var uploaded := resume.offset;
    if |local| <= uploaded {
      return Ret(0), sent, wire;
    }
    var from := SeekFrom(uploaded);
    sent := sent + [Line("APPE", d)];
    var code := SendCmd(env.cmdReply);
    if code != DataConnectionOpen {
      return Ret(code), sent, wire;
    }
    res, wire := Finish(local[from..], -3, env);
    HeadThenTail(local, from, wire);
  }

  /** The server's head of the file followed by the bytes sent gives the
      local file exactly when the bytes sent are the rest of it. */
  lemma {:induction false} HeadThenTail(local: seq<byte>, from: nat, wire: seq<byte>)
    requires from <= |local|
    ensures local[..from] + wire == local <==> wire == local[from..]
  {
    assert local[..from] + local[from..] == local;
    if local[..from] + wire == local {
      assert wire == (local[..from] + wire)[from..];
    }
  }
}
