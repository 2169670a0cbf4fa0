/** Segmented, resumable download (`ftp_download`, `ftp_downloadthread`).
    The bytes already in the destination file count as downloaded; the rest
    of the remote file is split into four segments, each fetched by a
    worker that sends REST <offset> and RETR (RFC 959, sections 4.1.3 and
    3.5) and writes what arrives into a pre-allocated scratch file; the
    scratch file is then appended to the destination. */
module FtpDownload {
  import opened FtpCommon
  import opened FtpReply
  import opened FtpPasv
  import opened FtpCommands

  /** `int thread_num = 4`. */
  const Workers: nat := 4

  /** `download_size / thread_num`: C's `/` on `long` truncates toward
      zero. */
  function Section(remaining: int): (q: int)
    ensures remaining >= 0 ==> 0 <= 4 * q <= remaining < 4 * q + 4
    ensures remaining < 0 ==> 4 * q - 4 < remaining <= 4 * q <= 0
  {
    if remaining >= 0 then remaining / 4 else -((-remaining) / 4)
  }

  /** A worker's share: it resumes at `offset` and keeps `size` bytes. */
  datatype Segment = Segment(offset: int, size: int)

  /** Each segment starts where the one before it ends. */
  predicate Contiguous(plan: seq<Segment>) {
    forall i, j :: 0 <= i < |plan| && 0 <= j < |plan| && j == i + 1 ==>
      plan[i].offset + plan[i].size == plan[j].offset
  }

  /** `section_size = download_size / thread_num`: the first three workers
      get `section_size` bytes each from `downloaded`, the last one the
      rest.  The segments follow one another without gap or overlap and end
      where the remote file ends; when there is something left to fetch,
      every size is non-negative and the last one is larger by the
      remainder. */
  function Plan(downloaded: int, remaining: int): (p: seq<Segment>)
    ensures |p| == Workers
    ensures p[0].offset == downloaded
    ensures Contiguous(p)
    ensures p[Workers - 1].offset + p[Workers - 1].size == downloaded + remaining
    ensures remaining >= 0 ==> forall i :: 0 <= i < Workers ==>
      0 <= p[i].size && downloaded <= p[i].offset
    ensures remaining >= 0 ==> forall i :: 0 <= i < Workers - 1 ==>
      p[i].size == p[Workers - 1].size - remaining % Workers
  {
    var section := Section(remaining);
    [Segment(downloaded, section),
     Segment(downloaded + section, section),
     Segment(downloaded + 2 * section, section),
     Segment(downloaded + 3 * section, remaining - 3 * section)]
  }

  /** Index of the last `.` in `d`. */
  function LastDot(d: string): (k: nat)
    requires '.' in d
    ensures k < |d| && d[k] == '.'
    ensures forall j :: k < j < |d| ==> d[j] != '.'
  {
    if d[|d| - 1] == '.' then |d| - 1
    else
      assert '.' in d[..|d| - 1] by {
        var j :| 0 <= j < |d| && d[j] == '.';
        assert d[..|d| - 1][j] == '.';
      }
      LastDot(d[..|d| - 1])
  }

  /** The scratch file's path: `temp` inserted before the last `.` of the
      destination path (`str.substr(0, pos) + "temp" + str.substr(pos)`).
      Without a `.`, `substr(npos)` throws, hence the precondition.  The
      result fills the `strlen(d) + 5` bytes allocated for it, and it is
      never the destination itself. */
  function ScratchPath(d: string): (t: string)
    requires '.' in d
    ensures |t| == |d| + 4
    ensures var k := LastDot(d);
      t[..k] == d[..k] && t[k..k + 4] == "temp" && t[k + 4..] == d[k..]
    ensures t != d
  {
    var k := LastDot(d);
    d[..k] + "temp" + d[k..]
  }

  /** `temp` goes right before the extension: the name `base.ext` is
      fetched through `basetemp.ext`, whatever dots `base` holds. */
  lemma {:induction false} ScratchPathOfExtension(base: string, ext: string)
    requires '.' !in ext
    ensures ScratchPath(base + "." + ext) == base + "temp" + "." + ext
  {
    var d := base + "." + ext;
    assert d[|base|] == '.';
    var k := LastDot(d);
    assert k == |base|;
    assert d[..k] == base && d[k..] == "." + ext;
  }

  /** A file on disk, modelled as its contents; `name` is its path. */
  class FileImage {
    const name: string
    var content: seq<byte>

    constructor (name: string, content: seq<byte>)
      ensures this.name == name && this.content == content
    {
      this.name := name;
      this.content := content;
    }

    /** `seekp(pos)` then `write(data)`. */
    method Write(pos: nat, data: seq<byte>)
      modifies this
      ensures content == WriteAt(old(content), pos, data)
    {
      content := WriteAt(content, pos, data);
    }

    /** `fwrite` on a stream opened for appending. */
    method Append(data: seq<byte>)
      modifies this
      ensures content == old(content) + data
    {
      content := content + data;
    }
  }

  /** What successive `recv` calls on a data socket return before it
      reports 0 or an error: non-empty chunks of at most `BUFSIZE` bytes. */
  predicate IsStream(cs: seq<seq<byte>>) {
    forall i :: 0 <= i < |cs| ==> 0 < |cs[i]| <= BufSize
  }

  /** All bytes of a stream, in order. */
  function Flatten(cs: seq<seq<byte>>): (s: seq<byte>)
    ensures cs == [] ==> s == []
  {
    if cs == [] then [] else cs[0] + Flatten(cs[1..])
  }

  /** The bytes `ftp_downloadthread` writes from a stream when it is to keep
      `size` bytes and has already counted `total`: every chunk is written
      whole until the running count reaches `size`; the chunk that passes
      `size` contributes only `size % len` bytes, and reading stops. */
  function Received(cs: seq<seq<byte>>, size: nat, total: int): (r: seq<byte>)
    requires IsStream(cs)
    ensures cs == [] ==> r == []
    decreases |cs|
  {
    if cs == [] then []
    else
      var len := |cs[0]|;
      if size < total + len then cs[0][..size % len]
      else if total + len == size then cs[0]
      else cs[0] + Received(cs[1..], size, total + len)
  }

  /** What the worker writes of one chunk `buf` when `count` bytes were
      counted before it: all of it, unless it passes `size`, in which case
      `size % len` bytes. */
  function Take(buf: seq<byte>, size: nat, count: int): (data: seq<byte>)
    requires 0 < |buf|
    ensures data <= buf
  {
    if size < count + |buf| then buf[..size % |buf|] else buf
  }

  /** The chunk that passes `size` gives `size % len` of its bytes, and one
      that stays at or below `size` is written whole. */
  lemma {:induction false} TakeWrites(buf: seq<byte>, size: nat, count: int)
    requires 0 < |buf|
    ensures size < count + |buf| ==> |Take(buf, size, count)| == size % |buf|
    ensures size >= count + |buf| ==> Take(buf, size, count) == buf
  {
  }

  /** One turn of the receive loop: after chunk `i` the bytes written so far
      have grown by `Take`, and either reading stops (the count reached or
      passed `size`) or the rest is what the following chunks give. */
  lemma {:induction false} ReceivedStep(cs: seq<seq<byte>>, i: nat, size: nat, count: int, written: seq<byte>)
    requires IsStream(cs) && i < |cs|
    requires Received(cs, size, 0) == written + Received(cs[i..], size, count)
    ensures var next := count + |cs[i]|;
      (size <= next ==> Received(cs, size, 0) == written + Take(cs[i], size, count)) &&
      (size > next ==> Received(cs, size, 0) == (written + Take(cs[i], size, count)) + Received(cs[i + 1..], size, next))
  {
    assert cs[i..][0] == cs[i] && cs[i..][1..] == cs[i + 1..];
  }

  /** The worker writes a prefix of what the server sent. */
  lemma {:induction false} ReceivedPrefix(cs: seq<seq<byte>>, size: nat, total: int)
    requires IsStream(cs)
    ensures Received(cs, size, total) <= Flatten(cs)
    decreases |cs|
  {
    if cs != [] {
      var len := |cs[0]|;
      if size < total + len {
        assert cs[0][..size % len] <= cs[0] + Flatten(cs[1..]);
      } else if total + len != size {
        ReceivedPrefix(cs[1..], size, total + len);
      }
    }
  }

  /** A stream that closes before passing `size` is written whole. */
  lemma {:induction false} ReceivedAll(cs: seq<seq<byte>>, size: nat, total: int)
    requires IsStream(cs) && total + |Flatten(cs)| <= size
    ensures Received(cs, size, total) == Flatten(cs)
    decreases |cs|
  {
    if cs != [] {
      if total + |cs[0]| != size {
        ReceivedAll(cs[1..], size, total + |cs[0]|);
      } else {
        assert Flatten(cs[1..]) == [];
      }
    }
  }

  /** `x % len` computed by repeated subtraction. */
  function Rem(x: nat, len: nat): (r: nat)
    requires len > 0
    ensures r < len
  {
    if x < len then x else Rem(x - len, len)
  }

  lemma {:induction false} RemIsMod(x: nat, len: nat)
    requires len > 0
    ensures Rem(x, len) == x % len
    decreases x
  {
    if x >= len {
      RemIsMod(x - len, len);
      ModShift(x - len, len);
    }
  }

  lemma {:induction false} ModShift(x: nat, len: nat)
    requires len > 0
    ensures (x + len) % len == x % len
  {
    var q := x / len;
    assert x == len * q + x % len;
    assert x + len == len * (q + 1) + x % len;
    ModUnique(x + len, len, q + 1, x % len);
  }

  lemma {:induction false} ModUnique(x: int, len: nat, q: int, r: int)
    requires len > 0 && 0 <= r < len && x == len * q + r
    ensures x % len == r
  {
    var k := x / len - q;
    assert x == len * (x / len) + x % len;
    assert len * k == r - x % len by {
      assert len * (x / len) - len * q == len * k;
    }
    if k >= 1 {
      MulAtLeast(len, k);
    } else if k <= -1 {
      MulAtLeast(len, -k);
    }
  }

  lemma {:induction false} MulAtLeast(a: nat, b: int)
    requires b >= 1
    ensures a * b >= a
  {
    assert a * b == a + a * (b - 1);
  }

  /** When every chunk has the same length and the stream holds at least
      `size` bytes, the worker writes exactly the first `size` of them (the
      `size % len` of the chunk that passes `size` is then the remainder). */
  lemma {:induction false} ReceivedUniform(cs: seq<seq<byte>>, len: nat, size: nat)
    requires IsStream(cs) && len > 0
    requires forall i :: 0 <= i < |cs| ==> |cs[i]| == len
    requires size <= |Flatten(cs)|
    ensures Received(cs, size, 0) == Flatten(cs)[..size]
  {
    RemIsMod(size, len);
    ReceivedUniformFrom(cs, len, size, 0);
  }

  lemma {:induction false} ReceivedUniformFrom(cs: seq<seq<byte>>, len: nat, size: nat, total: nat)
    requires IsStream(cs) && len > 0
    requires forall i :: 0 <= i < |cs| ==> |cs[i]| == len
    requires total <= size <= total + |Flatten(cs)|
    requires size % len == Rem(size - total, len)
    ensures Received(cs, size, total) == Flatten(cs)[..size - total]
    decreases |cs|
  {
    if cs != [] {
      var f := Flatten(cs);
      assert f == cs[0] + Flatten(cs[1..]);
      if size < total + len {
        assert f[..size - total] == cs[0][..size - total];
      } else if total + len == size {
        assert f[..size - total] == cs[0];
      } else {
        ReceivedUniformFrom(cs[1..], len, size, total + len);
        assert f[..size - total] == cs[0] + Flatten(cs[1..])[..size - total - len];
      }
    }
  }

  /** Chunks of 3 and 5 bytes against a size of 4: the second chunk passes
      the size and `4 % 5` writes four more bytes, seven in all. */
  lemma {:induction false} ReceivedOverrunWritesTooMuch()
    ensures |Received([[1, 1, 1], [2, 2, 2, 2, 2]], 4, 0)| == 7
  {
    var cs: seq<seq<byte>> := [[1, 1, 1], [2, 2, 2, 2, 2]];
    assert cs[1..] == [[2, 2, 2, 2, 2]];
    assert Received(cs[1..], 4, 3) == [2, 2, 2, 2];
  }

  /** Chunks of 2 and 3 bytes against a size of 4: `4 % 3` keeps one byte
      of the second chunk, three in all, one short of the segment. */
  lemma {:induction false} ReceivedOverrunWritesTooLittle()
    ensures |Received([[1, 1], [2, 2, 2]], 4, 0)| == 3
  {
    var cs: seq<seq<byte>> := [[1, 1], [2, 2, 2]];
    assert cs[1..] == [[2, 2, 2]];
    assert Received(cs[1..], 4, 2) == [2];
  }

  /** The first `j + 1` chunks are the first chunk, then the first `j` of
      the rest. */
  lemma {:induction false} FlattenCons(cs: seq<seq<byte>>, j: nat)
    requires j < |cs|
    ensures Flatten(cs[..j + 1]) == cs[0] + Flatten(cs[1..][..j])
  {
    assert cs[..j + 1][0] == cs[0] && cs[..j + 1][1..] == cs[1..][..j];
  }

  /** The stream is its first `k` chunks, then the rest. */
  lemma {:induction false} FlattenSplit(cs: seq<seq<byte>>, k: nat)
    requires k <= |cs|
    ensures Flatten(cs) == Flatten(cs[..k]) + Flatten(cs[k..])
    decreases k
  {
    if k > 0 {
      FlattenSplit(cs[1..], k - 1);
      FlattenCons(cs, k - 1);
      assert cs[1..][k - 1..] == cs[k..];
    } else {
      assert cs[..0] == [] && cs[0..] == cs;
    }
  }

  /** The first `k + 1` chunks are the first `k`, then chunk `k`. */
  lemma {:induction false} FlattenSnoc(cs: seq<seq<byte>>, k: nat)
    requires k < |cs|
    ensures Flatten(cs[..k + 1]) == Flatten(cs[..k]) + cs[k]
  {
    FlattenSplit(cs[..k + 1], k);
    assert cs[..k + 1][..k] == cs[..k] && cs[..k + 1][k..] == [cs[k]];
    assert Flatten([cs[k]]) == cs[k] + Flatten([cs[k]][1..]);
  }

  /** For any stream: when chunk `k` is the one whose bytes take the count
      to `size` or past it (the first `k` chunks stay below `size`, and as
      chunks are never empty so does every shorter run of them), the worker
      writes every earlier chunk whole and then `Take` of chunk `k`, that is
      `size % len` bytes of it when it passes `size` (see `TakeWrites`), not
      the `size - count` bytes still missing. */
  lemma {:induction false} ReceivedCrossing(cs: seq<seq<byte>>, size: nat, total: int, k: nat)
    requires IsStream(cs) && k < |cs|
    requires 0 < k ==> total + |Flatten(cs[..k])| < size
    requires size <= total + |Flatten(cs[..k + 1])|
    ensures Received(cs, size, total) == Flatten(cs[..k]) + Take(cs[k], size, total + |Flatten(cs[..k])|)
    decreases k
  {
    if k == 0 {
      ReceivedFirstCrosses(cs, size, total);
    } else {
      CountsShift(cs, size, total, k);
      ReceivedCrossing(cs[1..], size, total + |cs[0]|, k - 1);
      assert Received(cs[1..], size, total + |cs[0]|) ==
        Flatten(cs[1..][..k - 1]) + Take(cs[1..][k - 1], size, total + |cs[0]| + |Flatten(cs[1..][..k - 1])|);
      ReceivedAfterFirst(cs, size, total, k);
    }
  }

  /** `ReceivedCrossing` when the first chunk already reaches `size`. */
  lemma {:induction false} ReceivedFirstCrosses(cs: seq<seq<byte>>, size: nat, total: int)
    requires IsStream(cs) && 0 < |cs| && size <= total + |Flatten(cs[..1])|
    ensures Received(cs, size, total) == Flatten(cs[..0]) + Take(cs[0], size, total + |Flatten(cs[..0])|)
  {
    FlattenCons(cs, 0);
    assert cs[1..][..0] == [] && cs[..0] == [];
    assert Flatten(cs[..1]) == cs[0];
    assert Received(cs, size, total) == Take(cs[0], size, total);
  }

  /** The hypotheses of `ReceivedCrossing` for chunk `k` of `cs` are those
      for chunk `k - 1` of the chunks after the first. */
  lemma {:induction false} CountsShift(cs: seq<seq<byte>>, size: nat, total: int, k: nat)
    requires IsStream(cs) && 0 < k < |cs|
    requires total + |Flatten(cs[..k])| < size
    requires size <= total + |Flatten(cs[..k + 1])|
    ensures total + |cs[0]| < size
    ensures 0 < k - 1 ==> total + |cs[0]| + |Flatten(cs[1..][..k - 1])| < size
    ensures size <= total + |cs[0]| + |Flatten(cs[1..][..k - 1 + 1])|
  {
    FlattenCons(cs, k - 1);
    FlattenCons(cs, k);
  }

  /** The inductive step of `ReceivedCrossing`: a first chunk that stays
      below `size` is written whole in front of what the rest gives. */
  lemma {:induction false} ReceivedAfterFirst(cs: seq<seq<byte>>, size: nat, total: int, k: nat)
    requires IsStream(cs) && 0 < k < |cs| && total + |cs[0]| < size
    requires Received(cs[1..], size, total + |cs[0]|) ==
      Flatten(cs[1..][..k - 1]) + Take(cs[1..][k - 1], size, total + |cs[0]| + |Flatten(cs[1..][..k - 1])|)
    ensures Received(cs, size, total) == Flatten(cs[..k]) + Take(cs[k], size, total + |Flatten(cs[..k])|)
  {
    assert cs[1..][k - 1] == cs[k];
    FlattenCons(cs, k - 1);
    assert Received(cs, size, total) == cs[0] + Received(cs[1..], size, total + |cs[0]|);
    Reassociate(cs[0], Flatten(cs[1..][..k - 1]), Take(cs[k], size, total + |cs[0]| + |Flatten(cs[1..][..k - 1])|));
  }

  /** When the chunks up to and including the one that reaches `size` all
      have one length `len`, the worker writes exactly the first `size`
      bytes of the stream; the chunks after it may have any length. */
  lemma {:induction false} ReceivedEvenUpTo(cs: seq<seq<byte>>, size: nat)
    requires IsStream(cs) && size < |Flatten(cs)|
    requires EvenUpTo(cs, size)
    ensures Received(cs, size, 0) == Flatten(cs)[..size]
  {
    if size == 0 {
      assert cs != [];
    } else {
      var len := |cs[0]|;
      var k := 0;
      assert cs[..0] == [] && cs[..|cs|] == cs;
      while |Flatten(cs[..k + 1])| < size
        invariant 0 <= k < |cs|
        invariant |Flatten(cs[..k])| < size
        decreases |cs| - k
      {
        k := k + 1;
      }
      EvenPrefixLength(cs, size, k);
      ReceivedCrossing(cs, size, 0, k);
      FlattenSplit(cs, k);
      FlattenSnoc(cs, k);
      assert cs[k..][0] == cs[k] && cs[k..][1..] == cs[k + 1..];
      CrossingIsPrefix(Flatten(cs[..k]), cs[k], Flatten(cs[k + 1..]), size, k);
    }
  }

  /** The bytes before a chunk of length `len` number `k * len`, and the
      chunk takes the count to `size` or past it: it contributes exactly the
      bytes up to `size`, because `size % len` is then what is missing. */
  lemma {:induction false} CrossingIsPrefix(pre: seq<byte>, c: seq<byte>, post: seq<byte>, size: nat, k: nat)
    requires 0 < |c| && |pre| == k * |c| && |pre| < size <= |pre| + |c|
    ensures pre + Take(c, size, |pre|) == (pre + (c + post))[..size]
  {
    TakeWrites(c, size, |pre|);
    PrefixOfAppend(pre, c + post, size);
    assert (c + post)[..size - |pre|] == c[..size - |pre|];
    if size < |pre| + |c| {
      ModUnique(size, |c|, k, size - |pre|);
    }
  }

  /** While the count after the first `k` chunks is below `size`, those
      chunks and chunk `k` have the first chunk's length, so the first `k`
      chunks hold `k * len` bytes. */
  lemma {:induction false} EvenPrefixLength(cs: seq<seq<byte>>, size: nat, k: nat)
    requires IsStream(cs) && k < |cs|
    requires EvenUpTo(cs, size)
    requires |Flatten(cs[..k])| < size
    ensures |Flatten(cs[..k])| == k * |cs[0]| && |cs[k]| == |cs[0]|
    decreases k
  {
    if k == 0 {
      assert cs[..0] == [];
    } else {
      FlattenSnoc(cs, k - 1);
      EvenPrefixLength(cs, size, k - 1);
      assert (k - 1) * |cs[0]| + |cs[0]| == k * |cs[0]|;
    }
  }

  /** The server's side of one worker's exchanges, in order: the replies to
      TYPE, PASV, REST and RETR, whether the data connection opens, the
      chunks the data socket delivers, and the reply read after it. */
  datatype WorkerScript = WorkerScript(
    typeReply: Reply, pasvReply: Reply, connects: bool,
    restReply: Reply, retrReply: Reply,
    chunks: seq<seq<byte>>, finalReply: Reply)

  predicate ScriptFits(w: WorkerScript) {
    Fits(w.typeReply) && Fits(w.pasvReply) && Fits(w.restReply) &&
    Fits(w.retrReply) && Fits(w.finalReply) && IsStream(w.chunks)
  }

  /** Whether the worker reaches its receive loop: the data connection
      opens, REST is answered 350 and RETR 150. */
  predicate Transfers(w: WorkerScript)
    requires ScriptFits(w)
  {
    PasvConnect(w.pasvReply, w.connects).DataSocket? &&
    SendCmd(w.restReply) == FileActionPending &&
    SendCmd(w.retrReply) == DataConnectionOpen
  }

  /** The bytes the worker writes at its offset, `None` when it returns
      before receiving. */
  function WorkerData(size: nat, w: WorkerScript): (d: Option<seq<byte>>)
    requires ScriptFits(w)
    ensures d.Some? <==> Transfers(w)
    ensures d.Some? ==> d.value <= Flatten(w.chunks) && |d.value| <= |Flatten(w.chunks)|
  {
    if Transfers(w) then
      ReceivedPrefix(w.chunks, size, 0);
      Some(Received(w.chunks, size, 0))
    else None
  }

  /** `ftp_downloadthread`'s return value: -2 when the data connection
      fails, the REST or RETR code when it is not 350 or 150, and after
      the transfer 0 on 226, otherwise the code read (150 when the closing
      reply carries none). */
  function WorkerResult(w: WorkerScript): (o: Outcome)
    requires ScriptFits(w)
    ensures !w.connects ==> o == Ret(-2)
    ensures w.connects && SendCmd(w.restReply) != FileActionPending ==> o == Ret(SendCmd(w.restReply))
    ensures (w.connects && SendCmd(w.restReply) == FileActionPending &&
             SendCmd(w.retrReply) != DataConnectionOpen) ==> o == Ret(SendCmd(w.retrReply))
    ensures Transfers(w) ==> o == TransferDone(w.finalReply, Ret(DataConnectionOpen))
    ensures o == Ret(0) ==>
      Transfers(w) || SendCmd(w.restReply) == 0 ||
      (SendCmd(w.restReply) == FileActionPending && SendCmd(w.retrReply) == 0)
    ensures o.Unspecified? ==> Transfers(w) && w.finalReply.Lost?
  {
    if PasvConnect(w.pasvReply, w.connects).PasvFailed? then Ret(-2)
    else if SendCmd(w.restReply) != FileActionPending then Ret(SendCmd(w.restReply))
    else if SendCmd(w.retrReply) != DataConnectionOpen then Ret(SendCmd(w.retrReply))
    else TransferDone(w.finalReply, Ret(DataConnectionOpen))
  }

  /** A worker whose data connection opens, on replies that start with
      printed codes: a REST code other than 350 or a RETR code other than
      150 is returned as it is; after the transfer a closing 226 gives 0,
      any other closing code is returned, and a closing reply without a
      number leaves the 150 read from RETR. */
  lemma {:induction false} WorkerResultOnCodes(
    w: WorkerScript, rest: nat, rmsg: string, retr: nat, tmsg: string, fin: nat, fmsg: string, s: string)
    requires ScriptFits(w) && w.connects
    requires rmsg == [] || !IsDigit(rmsg[0])
    requires tmsg == [] || !IsDigit(tmsg[0])
    requires fmsg == [] || !IsDigit(fmsg[0])
    requires w.restReply == Text(Show(rest) + rmsg) && w.retrReply == Text(Show(retr) + tmsg)
    requires w.finalReply == Text(Show(fin) + fmsg) ||
             (w.finalReply == Text(s) && s != [] && forall i :: 0 <= i < |s| ==> !IsDigit(s[i]))
    ensures WorkerResult(w) ==
      if rest != FileActionPending then Ret(rest)
      else if retr != DataConnectionOpen then Ret(retr)
      else if w.finalReply == Text(Show(fin) + fmsg) then Ret(if fin == DataConnectionClose then 0 else fin)
      else Ret(DataConnectionOpen)
  {
    SendCmdReadsCode(rest, rmsg);
    SendCmdReadsCode(retr, tmsg);
    if w.finalReply == Text(Show(fin) + fmsg) {
      TransferDoneOnCode(fin, fmsg, Ret(DataConnectionOpen), []);
    } else {
      TransferDoneOnCode(0, [], Ret(DataConnectionOpen), s);
    }
  }

  /** The scratch file after one worker that delivered `got`: the bytes
      written at the segment's absolute offset; a worker that returned
      before receiving leaves the file as it was, and bytes before the
      offset are never touched. */
  function Place(c: seq<byte>, seg: Segment, got: Option<seq<byte>>): (r: seq<byte>)
    requires seg.offset >= 0
    ensures |r| >= |c|
    ensures got.None? ==> r == c
  {
    match got
    case None => c
    case Some(data) => WriteAt(c, seg.offset, data)
  }

  /** A worker never changes the bytes before its offset. */
  lemma {:induction false} PlaceKeepsBefore(c: seq<byte>, seg: Segment, got: Option<seq<byte>>)
    requires seg.offset >= 0
    ensures forall i :: 0 <= i < |c| && i < seg.offset ==> Place(c, seg, got)[i] == c[i]
  {
    if got.Some? {
      WriteAtKeepsBefore(c, seg.offset, got.value);
    }
  }

  /** The receive loop of `ftp_downloadthread`: `file` is positioned at
      `offset`; each chunk read is counted in `write_len` and written at
      the current position, until the stream ends, the count reaches
      `size`, or a chunk passes it. */
  method Receive(file: FileImage, offset: nat, size: nat, chunks: seq<seq<byte>>)
    requires IsStream(chunks)
    modifies file
    ensures file.content == WriteAt(old(file.content), offset, Received(chunks, size, 0))
  {
    ghost var start := file.content;
    var pos := offset;
    var writeLen := 0;
    var i := 0;
    ghost var written: seq<byte> := [];
    while i < |chunks|
      invariant 0 <= i <= |chunks|
      invariant pos == offset + |written|
      invariant file.content == WriteAt(start, offset, written)
      invariant Received(chunks, size, 0) == written + Received(chunks[i..], size, writeLen)
    {
      var buf := chunks[i];
      ReceivedStep(chunks, i, size, writeLen, written);
      var data := Take(buf, size, writeLen);
      writeLen := writeLen + |buf|;
      file.Write(pos, data);
      WriteAtConsecutive(start, offset, written, data);
      written := written + data;
      pos := pos + |data|;
      if size <= writeLen {
        break;
      }
      i := i + 1;
    }
    if i == |chunks| {
      assert chunks[i..] == [];
      assert written + [] == written;
    }
  }

  /** One worker, `ftp_downloadthread(c_sock, s, d, offset, size)`, on the
      scratch file `file`.  It seeks the scratch file to the same absolute
      `offset` it sends in REST, and writes the received chunks one after
      another from there. */
  method Worker(file: FileImage, src: string, offset: nat, size: nat, w: WorkerScript)
    returns (res: Outcome, sent: seq<string>)
    requires ScriptFits(w)
    modifies file
    ensures res == WorkerResult(w)
    ensures file.content == Place(old(file.content), Segment(offset, size), WorkerData(size, w))
    ensures 2 <= |sent| <= 4 && sent[0] == Line("TYPE", "I") && sent[1] == Bare("PASV")
    ensures |sent| >= 3 <==> w.connects
    ensures |sent| >= 3 ==> sent[2] == Line("REST", Show(offset))
    ensures |sent| == 4 <==> w.connects && SendCmd(w.restReply) == FileActionPending
    ensures |sent| == 4 ==> sent[3] == Line("RETR", src)
  {
    sent := Type('I', w.typeReply).sent + [Bare("PASV")];
    if PasvConnect(w.pasvReply, w.connects).PasvFailed? {
      return Ret(-2), sent;
    }
    sent := sent + [Line("REST", Show(offset))];
    var result := SendCmd(w.restReply);
    if result != FileActionPending {
      return Ret(result), sent;
    }
    sent := sent + [Line("RETR", src)];
    result := SendCmd(w.retrReply);
    if result != DataConnectionOpen {
      return Ret(result), sent;
    }

    Receive(file, offset, size, w.chunks);
    res := TransferDone(w.finalReply, Ret(result));
  }

  /** A plan whose segments all lie at non-negative offsets. */
  predicate Placeable(plan: seq<Segment>) {
    forall i :: 0 <= i < |plan| ==> plan[i].offset >= 0 && plan[i].size >= 0
  }

  /** The scratch file after the workers of `plan`, which delivered `got`,
      ran one after another (each thread is joined before the next one
      starts). */
  function Applied(c: seq<byte>, plan: seq<Segment>, got: seq<Option<seq<byte>>>): (r: seq<byte>)
    requires Placeable(plan) && |got| == |plan|
    ensures |r| >= |c|
    decreases |plan|
  {
    if plan == [] then c
    else
      var n := |plan| - 1;
      Place(Applied(c, plan[..n], got[..n]), plan[n], got[n])
  }

  /** The first `k` workers: the first `k - 1`, then worker `k - 1`. */
  lemma {:induction false} AppliedStep(c: seq<byte>, plan: seq<Segment>, got: seq<Option<seq<byte>>>, k: nat)
    requires Placeable(plan) && |got| == |plan| && 0 < k <= |plan|
    ensures Placeable(plan[..k]) && Placeable(plan[..k - 1])
    ensures Applied(c, plan[..k], got[..k]) ==
            Place(Applied(c, plan[..k - 1], got[..k - 1]), plan[k - 1], got[k - 1])
  {
    assert plan[..k][..k - 1] == plan[..k - 1] && got[..k][..k - 1] == got[..k - 1];
  }

  /** Segment `i` of the plan receives exactly its bytes of `remote`. */
  predicate Delivers(plan: seq<Segment>, got: seq<Option<seq<byte>>>, remote: seq<byte>)
    requires Placeable(plan) && |got| == |plan|
  {
    forall i :: 0 <= i < |plan| ==>
      plan[i].offset + plan[i].size <= |remote| &&
      got[i] == Some(remote[plan[i].offset..plan[i].offset + plan[i].size])
  }

  /** Workers that each receive exactly the bytes of their segment of
      `remote` leave the scratch file as if the whole range covered by the
      first `k` segments had been written in one go at the first offset. */
  lemma {:induction false} AppliedContiguous(
    c: seq<byte>, plan: seq<Segment>, got: seq<Option<seq<byte>>>, remote: seq<byte>, k: nat)
    requires Placeable(plan) && |got| == |plan| && 0 < k <= |plan|
    requires Contiguous(plan)
    requires Delivers(plan, got, remote)
    ensures Placeable(plan[..k])
    ensures plan[0].offset <= plan[k - 1].offset + plan[k - 1].size &&
            Applied(c, plan[..k], got[..k]) ==
            WriteAt(c, plan[0].offset, remote[plan[0].offset..plan[k - 1].offset + plan[k - 1].size])
    decreases k
  {
    PlanOffsetsGrow(plan, k - 1);
    if k == 1 {
      AppliedFirst(c, plan, got, remote);
    } else {
      AppliedContiguous(c, plan, got, remote, k - 1);
      assert k - 1 - 1 == k - 2;
      assert Applied(c, plan[..k - 1], got[..k - 1]) ==
             WriteAt(c, plan[0].offset, remote[plan[0].offset..plan[k - 2].offset + plan[k - 2].size]);
      DeliversAt(plan, got, remote, k - 1);
      ContiguousAt(plan, k - 2, k - 1);
      AppliedExtend(c, plan, got, remote, k);
    }
  }

  lemma {:induction false} AppliedFirst(c: seq<byte>, plan: seq<Segment>, got: seq<Option<seq<byte>>>, remote: seq<byte>)
    requires Placeable(plan) && |got| == |plan| && 0 < |plan|
    requires Delivers(plan, got, remote)
    ensures Placeable(plan[..1])
    ensures Applied(c, plan[..1], got[..1]) ==
            WriteAt(c, plan[0].offset, remote[plan[0].offset..plan[0].offset + plan[0].size])
  {
    AppliedStep(c, plan, got, 1);
    assert plan[..0] == [] && got[..0] == [];
  }

  /** The induction step of `AppliedContiguous`: worker `k - 1` writes its
      segment right where the previous ones stopped. */
  lemma {:induction false} AppliedExtend(c: seq<byte>, plan: seq<Segment>, got: seq<Option<seq<byte>>>, remote: seq<byte>, k: nat)
    requires Placeable(plan) && |got| == |plan| && 1 < k <= |plan|
    requires plan[0].offset <= plan[k - 2].offset + plan[k - 2].size
    requires plan[k - 2].offset + plan[k - 2].size == plan[k - 1].offset
    requires plan[k - 1].offset + plan[k - 1].size <= |remote|
    requires got[k - 1] == Some(remote[plan[k - 1].offset..plan[k - 1].offset + plan[k - 1].size])
    requires Placeable(plan[..k - 1])
    requires Applied(c, plan[..k - 1], got[..k - 1]) ==
             WriteAt(c, plan[0].offset, remote[plan[0].offset..plan[k - 2].offset + plan[k - 2].size])
    ensures Placeable(plan[..k])
    ensures Applied(c, plan[..k], got[..k]) ==
            WriteAt(c, plan[0].offset, remote[plan[0].offset..plan[k - 1].offset + plan[k - 1].size])
  {
    AppliedStep(c, plan, got, k);
    PlaceAfter(c, Applied(c, plan[..k - 1], got[..k - 1]), remote,
               plan[0].offset, plan[k - 2].offset + plan[k - 2].size, plan[k - 1].offset + plan[k - 1].size,
               plan[k - 1], got[k - 1]);
  }

  lemma {:induction false} ContiguousAt(plan: seq<Segment>, i: nat, j: nat)
    requires Placeable(plan) && Contiguous(plan) && j == i + 1 && j < |plan|
    ensures plan[i].offset + plan[i].size == plan[j].offset
    ensures 0 <= plan[j].size
  {
  }

  lemma {:induction false} DeliversAt(plan: seq<Segment>, got: seq<Option<seq<byte>>>, remote: seq<byte>, i: nat)
    requires Placeable(plan) && |got| == |plan| && i < |plan|
    requires Delivers(plan, got, remote)
    ensures plan[i].offset + plan[i].size <= |remote|
    ensures got[i] == Some(remote[plan[i].offset..plan[i].offset + plan[i].size])
  {
  }

  /** A segment delivered right where the bytes written so far end extends
      them. */
  lemma {:induction false} PlaceAfter(c: seq<byte>, prior: seq<byte>, remote: seq<byte>, base: nat, mid: nat, end: nat,
                   seg: Segment, got: Option<seq<byte>>)
    requires base <= mid <= end <= |remote| && seg.offset == mid && seg.offset + seg.size == end
    requires got == Some(remote[seg.offset..seg.offset + seg.size])
    requires prior == WriteAt(c, base, remote[base..mid])
    ensures Place(prior, seg, got) == WriteAt(c, base, remote[base..end])
  {
    var a, b := remote[base..mid], remote[mid..end];
    assert a + b == remote[base..end];
    assert Place(prior, seg, got) == WriteAt(prior, mid, b);
    assert base + |a| == mid;
    WriteAtConsecutive(c, base, a, b);
  }

  /** Along a contiguous plan with non-negative sizes, offsets only grow. */
  lemma {:induction false} PlanOffsetsGrow(plan: seq<Segment>, k: nat)
    requires k < |plan|
    requires Placeable(plan)
    requires Contiguous(plan)
    ensures plan[0].offset <= plan[k].offset
    decreases k
  {
    if k > 0 {
      PlanOffsetsGrow(plan, k - 1);
    }
  }

  /** Workers that each get their own segment of the remote file: the
      scratch file holds `downloaded` zero bytes, then the missing part of
      the remote file, because each worker seeks to the absolute offset
      it resumes the transfer at, not to its place inside the scratch file. */
  lemma {:induction false} ScratchAfterIdealWorkers(downloaded: nat, remote: seq<byte>, got: seq<Option<seq<byte>>>)
    requires downloaded < |remote| && |got| == Workers
    requires Delivers(Plan(downloaded, |remote| - downloaded), got, remote)
    ensures Applied(Zeros(|remote| - downloaded), Plan(downloaded, |remote| - downloaded), got) ==
            Zeros(downloaded) + remote[downloaded..]
  {
    AppliedCovering(|remote| - downloaded, Plan(downloaded, |remote| - downloaded), got, remote, downloaded);
    assert Applied(Zeros(|remote| - downloaded), Plan(downloaded, |remote| - downloaded), got) ==
           Zeros(downloaded) + remote[downloaded..];
  }

  /** A contiguous plan from `base` to the end of `remote`, run over a
      zero-filled image no longer than `remote`. */
  lemma {:induction false} AppliedCovering(n: nat, plan: seq<Segment>, got: seq<Option<seq<byte>>>, remote: seq<byte>, base: nat)
    requires Placeable(plan) && |got| == |plan| && 0 < |plan|
    requires Contiguous(plan) && Delivers(plan, got, remote)
    requires base < |remote| && n <= |remote|
    requires plan[0].offset == base && plan[|plan| - 1].offset + plan[|plan| - 1].size == |remote|
    ensures Applied(Zeros(n), plan, got) == Zeros(base) + remote[base..]
  {
    var k := |plan|;
    AppliedContiguous(Zeros(n), plan, got, remote, k);
    assert plan[..k] == plan && got[..k] == got;
    var rest := remote[base..];
    assert remote[base..|remote|] == rest;
    WriteAtOverZeros(n, base, rest);
  }

  /** The merge: the scratch file's bytes are appended to the destination
      block by block (`fread` / `fwrite` of `BUFSIZE` bytes) until `fread`
      returns 0, at the end of the scratch file or at block `stopAt` when
      reading it fails (the loop cannot tell the two apart and the merge
      reports success); a stream error (`ferror`) at block `errorAt` stops
      it with -3, leaving the blocks before it appended. */
  method Merge(dest: FileImage, scratch: FileImage, stopAt: Option<nat>, errorAt: Option<nat>) returns (res: int)
    requires dest != scratch
    modifies dest
    ensures res == (if CopyFails(scratch.content, stopAt, errorAt) then -3 else 0)
    ensures dest.content == old(dest.content) + Copied(scratch.content, stopAt, errorAt)
  {
    var src := scratch.content;
    var pos := 0;
    var k := 0;
    while pos < |src| && stopAt != Some(k)
      invariant 0 <= pos <= |src|
      invariant pos < |src| ==> pos == k * BufSize
      invariant pos <= k * BufSize
      invariant errorAt.Some? ==> errorAt.value >= k
      invariant stopAt.Some? ==> stopAt.value >= k
      invariant dest.content == old(dest.content) + src[..pos]
      invariant src == scratch.content
      decreases |src| - pos
    {
      var n := Min(BufSize, |src| - pos);
      if errorAt == Some(k) {
        CopyFailsWhen(src, stopAt, errorAt);
        return -3;
      }
      dest.Append(src[pos..pos + n]);
      assert src[..pos] + src[pos..pos + n] == src[..pos + n];
      pos := pos + n;
      k := k + 1;
    }
    CopyFailsWhen(src, stopAt, errorAt);
    res := 0;
  }

  /** What the local file system and the server do during one download:
      whether the destination opens, the reply to SIZE, whether the
      pre-allocated scratch file can be created, the four workers' scripts,
      whether the scratch file opens again for the merge, the block at
      which reading the scratch file fails, if any, and the block at which
      the merge hits a stream error, if any. */
  datatype DownloadEnv = DownloadEnv(
    localOpens: bool, sizeReply: Reply, scratchCreated: bool,
    workers: seq<WorkerScript>, scratchReopens: bool,
    mergeReadStopsAt: Option<nat>, mergeErrorAt: Option<nat>)

  predicate EnvFits(env: DownloadEnv) {
    Fits(env.sizeReply) && |env.workers| == Workers &&
    forall i :: 0 <= i < Workers ==> ScriptFits(env.workers[i])
  }

  /** The size of the remote file when SIZE succeeds with a size no
      smaller than what is already downloaded. */
  predicate Proceeds(local: nat, env: DownloadEnv)
    requires EnvFits(env)
  {
    env.localOpens &&
    var fs := FileSize(env.sizeReply);
    fs.Some? && fs.value.status == 0 && fs.value.size.value >= local
  }

  function RemoteSize(local: nat, env: DownloadEnv): (n: nat)
    requires EnvFits(env) && Proceeds(local, env)
    ensures n >= local
  {
    FileSize(env.sizeReply).value.size.value
  }

  /** What each worker of `plan` delivers. */
  function Deliveries(plan: seq<Segment>, ws: seq<WorkerScript>): (got: seq<Option<seq<byte>>>)
    requires Placeable(plan) && |ws| == |plan|
    requires forall i :: 0 <= i < |ws| ==> ScriptFits(ws[i])
    ensures |got| == |plan|
    ensures forall i :: 0 <= i < |plan| ==> got[i] == WorkerData(plan[i].size, ws[i])
  {
    seq(|plan|, i requires 0 <= i < |plan| => WorkerData(plan[i].size, ws[i]))
  }

  /** The pre-allocated scratch file of `remaining` bytes once the four
      workers, resuming at `downloaded`, have run. */
  function Scattered(downloaded: nat, remaining: nat, ws: seq<WorkerScript>): (r: seq<byte>)
    requires |ws| == Workers && forall i :: 0 <= i < Workers ==> ScriptFits(ws[i])
    ensures |r| >= remaining
  {
    var plan := Plan(downloaded, remaining);
    Applied(Zeros(remaining), plan, Deliveries(plan, ws))
  }

  /** The scratch file once all four workers have run. */
  function ScratchAfter(local: nat, env: DownloadEnv): (r: seq<byte>)
    requires EnvFits(env) && Proceeds(local, env)
    ensures |r| >= RemoteSize(local, env) - local
  {
    Scattered(local, RemoteSize(local, env) - local, env.workers)
  }

  /** The pre-allocation and the four workers of `ftp_download`, joined one
      after another: the scratch file `temp` is created with `remaining`
      zero bytes, and worker `i` fetches segment `i` of the plan into it. */
  method Fetch(src: string, temp: string, downloaded: nat, remaining: nat, ws: seq<WorkerScript>)
    returns (scratch: FileImage)
    requires |ws| == Workers && forall i :: 0 <= i < Workers ==> ScriptFits(ws[i])
    ensures fresh(scratch) && scratch.name == temp
    ensures scratch.content == Scattered(downloaded, remaining, ws)
  {
    scratch := new FileImage(temp, Zeros(remaining));
    var plan := Plan(downloaded, remaining);
    ghost var got := Deliveries(plan, ws);
    for i := 0 to Workers
      invariant Placeable(plan[..i])
      invariant scratch.content == Applied(Zeros(remaining), plan[..i], got[..i])
    {
      var _, _ := Worker(scratch, src, plan[i].offset as nat, plan[i].size as nat, ws[i]);
      AppliedStep(Zeros(remaining), plan, got, i + 1);
    }
    assert plan[..Workers] == plan && got[..Workers] == got;
  }

  /** `ftp_download(c_sock, s, d)`.  Returns -1 when the destination or the
      scratch file cannot be opened or created, the SIZE status when it is
      not 0, and otherwise the merge's result: the workers' own results are
      never read.  The result is `Unspecified` when the SIZE reply has fewer
      than two tokens or announces a file smaller than the local one. */
  method Download(src: string, d: string, dest: FileImage, env: DownloadEnv)
    returns (res: Outcome, scratch: FileImage?)
    requires '.' in d
    requires EnvFits(env)
    modifies dest
    ensures !env.localOpens ==> res == Ret(-1) && scratch == null
    ensures env.localOpens && FileSize(env.sizeReply).None? ==> res.Unspecified?
    ensures env.localOpens && FileSize(env.sizeReply).Some? && FileSize(env.sizeReply).value.status != 0 ==>
      res == Ret(FileSize(env.sizeReply).value.status) && scratch == null
    ensures (env.localOpens && FileSize(env.sizeReply).Some? && FileSize(env.sizeReply).value.status == 0 &&
      FileSize(env.sizeReply).value.size.value < |old(dest.content)|) ==> res.Unspecified? && scratch == null
    ensures !Proceeds(|old(dest.content)|, env) ==> dest.content == old(dest.content)
    ensures Proceeds(|old(dest.content)|, env) && !env.scratchCreated ==>
      res == Ret(-1) && scratch == null && dest.content == old(dest.content)
    ensures Proceeds(|old(dest.content)|, env) && env.scratchCreated ==>
      scratch != null && fresh(scratch) && scratch.name == ScratchPath(d) &&
      scratch.content == ScratchAfter(|old(dest.content)|, env)
    ensures Proceeds(|old(dest.content)|, env) && env.scratchCreated && !env.scratchReopens ==>
      res == Ret(-1) && dest.content == old(dest.content)
    ensures Proceeds(|old(dest.content)|, env) && env.scratchCreated && env.scratchReopens ==>
      scratch != null &&
      res == Ret(if CopyFails(scratch.content, env.mergeReadStopsAt, env.mergeErrorAt) then -3 else 0) &&
      dest.content == old(dest.content) + Copied(scratch.content, env.mergeReadStopsAt, env.mergeErrorAt)
  {
    scratch := null;
    if !env.localOpens {
      return Ret(-1), null;
    }
    var downloaded := |dest.content|;
    var size := FileSize(env.sizeReply);
    if size.None? {
      return Unspecified, null;
    }
    if size.value.status != 0 {
      return Ret(size.value.status), null;
    }
    var remaining := size.value.size.value - downloaded;
    if remaining < 0 {
      return Unspecified, null;
    }
    var temp := ScratchPath(d);
    if !env.scratchCreated {
      return Ret(-1), null;
    }
    scratch := Fetch(src, temp, downloaded, remaining, env.workers);
    if !env.scratchReopens {
      return Ret(-1), scratch;
    }
    var merged := Merge(dest, scratch, env.mergeReadStopsAt, env.mergeErrorAt);
    res := Ret(merged);
  }

  /** Every chunk counted while the count is still below `size` (so the one
      that reaches `size` too) has the first chunk's length. */
  predicate EvenUpTo(cs: seq<seq<byte>>, size: nat)
    requires IsStream(cs)
  {
    forall i :: 0 <= i < |cs| && |Flatten(cs[..i])| < size ==> |cs[i]| == |cs[0]|
  }

  /** A worker the server serves as it should: the data connection opens,
      REST is answered 350 and RETR 150, and the data socket carries the
      remote file from the REST offset to its end, while the segment lies
      inside the remote file.  Chunks may have any length when the segment
      runs to the end of the file; otherwise every chunk up to the one that
      reaches the segment's end has one length (the usual stream of full
      buffers, whose shorter last chunk lies beyond the segment). */
  predicate Serves(w: WorkerScript, remote: seq<byte>, seg: Segment)
    requires ScriptFits(w)
  {
    Transfers(w) && 0 <= seg.offset && 0 <= seg.size && seg.offset + seg.size <= |remote| &&
    Flatten(w.chunks) == remote[seg.offset..] &&
    (seg.offset + seg.size == |remote| || EvenUpTo(w.chunks, seg.size as nat))
  }

  /** A worker served as it should writes exactly its segment of the
      remote file. */
  lemma {:induction false} ServedWorkerDelivers(w: WorkerScript, remote: seq<byte>, seg: Segment)
    requires ScriptFits(w) && Serves(w, remote, seg)
    ensures WorkerData(seg.size, w) == Some(remote[seg.offset..seg.offset + seg.size])
  {
    if seg.offset + seg.size == |remote| {
      ReceivedAll(w.chunks, seg.size, 0);
      assert remote[seg.offset..] == remote[seg.offset..seg.offset + seg.size];
    } else {
      ReceivedEvenUpTo(w.chunks, seg.size);
      assert remote[seg.offset..][..seg.size] == remote[seg.offset..seg.offset + seg.size];
    }
  }

  /** Workers served as they should deliver their segments of the remote
      file. */
  lemma {:induction false} ServedWorkersDeliver(plan: seq<Segment>, ws: seq<WorkerScript>, remote: seq<byte>)
    requires Placeable(plan) && |ws| == |plan|
    requires forall i :: 0 <= i < |ws| ==> ScriptFits(ws[i])
    requires forall i :: 0 <= i < |plan| ==> Serves(ws[i], remote, plan[i])
    ensures Delivers(plan, Deliveries(plan, ws), remote)
  {
    forall i | 0 <= i < |plan|
      ensures Deliveries(plan, ws)[i] == Some(remote[plan[i].offset..plan[i].offset + plan[i].size])
    {
      ServedWorkerDelivers(ws[i], remote, plan[i]);
    }
  }

  /** The scratch file after four workers served as they should, for a
      download resumed after `local` bytes: `local` zero bytes, then the
      rest of the remote file. */
  lemma {:induction false} ServedScratch(local: nat, remote: seq<byte>, env: DownloadEnv)
    requires EnvFits(env) && Proceeds(local, env) && RemoteSize(local, env) == |remote|
    requires local < |remote|
    requires forall i :: 0 <= i < Workers ==> Serves(env.workers[i], remote, Plan(local, |remote| - local)[i])
    ensures ScratchAfter(local, env) == Zeros(local) + remote[local..]
  {
    ScratchAfterIsScattered(local, remote, env);
    ServedScattered(local, remote, env.workers);
  }

  lemma {:induction false} ScratchAfterIsScattered(local: nat, remote: seq<byte>, env: DownloadEnv)
    requires EnvFits(env) && Proceeds(local, env) && RemoteSize(local, env) == |remote|
    ensures ScratchAfter(local, env) == Scattered(local, |remote| - local, env.workers)
  {
    ScratchAfterUnfolds(local, env);
    ScatteredOfSize(local, RemoteSize(local, env), |remote|, env.workers);
  }

  lemma {:induction false} ScatteredOfSize(local: nat, n: nat, m: nat, ws: seq<WorkerScript>)
    requires |ws| == Workers && forall i :: 0 <= i < Workers ==> ScriptFits(ws[i])
    requires local <= n && n == m
    ensures Scattered(local, n - local, ws) == Scattered(local, m - local, ws)
  {
  }

  lemma {:induction false} ScratchAfterUnfolds(local: nat, env: DownloadEnv)
    requires EnvFits(env) && Proceeds(local, env)
    ensures ScratchAfter(local, env) == Scattered(local, RemoteSize(local, env) - local, env.workers)
  {
  }

  /** The scratch image after four workers served as they should,
      resuming at `local`. */
  lemma {:induction false} ServedScattered(local: nat, remote: seq<byte>, ws: seq<WorkerScript>)
    requires |ws| == Workers && forall i :: 0 <= i < Workers ==> ScriptFits(ws[i])
    requires local < |remote|
    requires forall i :: 0 <= i < Workers ==> Serves(ws[i], remote, Plan(local, |remote| - local)[i])
    ensures Scattered(local, |remote| - local, ws) == Zeros(local) + remote[local..]
  {
    ServedWorkersDeliver(Plan(local, |remote| - local), ws, remote);
    ScratchAfterIdealWorkers(local, remote, Deliveries(Plan(local, |remote| - local), ws));
  }

  /** A resumed download whose four workers the server serves as it
      should, and whose merge reads the scratch file to the end without a
      stream error, ends with the destination holding the local bytes, as
      many zero bytes again, and then the rest of the remote file (the
      destination `Download` promises for that environment): it matches the
      remote file only when nothing was downloaded before. */
  lemma {:induction false} ResumeInsertsZeros(local: seq<byte>, remote: seq<byte>, env: DownloadEnv)
    requires EnvFits(env) && Proceeds(|local|, env) && RemoteSize(|local|, env) == |remote|
    requires |local| < |remote|
    requires forall i :: 0 <= i < Workers ==>
      Serves(env.workers[i], remote, Plan(|local|, |remote| - |local|)[i])
    requires !BlockFails(|remote|, env.mergeReadStopsAt) && !BlockFails(|remote|, env.mergeErrorAt)
    ensures var merged := local + Copied(ScratchAfter(|local|, env), env.mergeReadStopsAt, env.mergeErrorAt);
      merged == local + Zeros(|local|) + remote[|local|..] &&
      (merged == remote <==> local == [])
  {
    ServedScratch(|local|, remote, env);
    assert |ScratchAfter(|local|, env)| == |remote|;
    ZerosThenRest(local, remote, ScratchAfter(|local|, env));
  }

  /** Appending a scratch image of `|local|` zeros and the rest of `remote`
      to `local` gives `remote` back only when `local` is empty. */
  lemma {:induction false} ZerosThenRest(local: seq<byte>, remote: seq<byte>, scratch: seq<byte>)
    requires |local| < |remote| && scratch == Zeros(|local|) + remote[|local|..]
    ensures local + scratch == local + Zeros(|local|) + remote[|local|..]
    ensures local + scratch == remote <==> local == []
  {
    assert |local + scratch| == |remote| + |local|;
    if local == [] {
      assert local + scratch == remote[0..];
    }
  }
}
