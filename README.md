# FTP client core (ftpapi.h), modelled in Dafny

`ftpapi.h` is a Winsock FTP client. It has one class, `FTPAPI`, which drives the control connection with
single command/reply exchanges:

- login with USER and PASS;
- TYPE, NOOP, CWD, CDUP, MKD, PWD, RMD, DELE, SIZE, and RNFR/RNTO;
- passive-mode data connections (PASV);
- a four-worker resumable download, REST + RETR into a pre-allocated scratch file that is then
  appended to the destination;
- two uploads: STOR to replace, and SIZE + APPE to resume.

The model is split into six modules:

| module | file | what it holds |
|---|---|---|
| `FtpCommon` | `ftp_common.dfy` | bytes, `BUFSIZE`, the `Outcome` of a call, positioned writes into a file image (`WriteAt`), block-by-block copies that may stop early (`Transferred`, `Copied`) |
| `FtpReply` | `ftp_reply.dfy` | reply codes, the C scanners the client relies on (`sscanf "%d"`, `strtok(…, " ")`, `atoi`), both `ftp_sendcmd` overloads, `ftp_filesize`, and the status read after a transfer |
| `FtpPasv` | `ftp_pasv.dfy` | decoding the PASV reply `(a,b,c,d,p1,p2)` and `ftp_pasv_connect` |
| `FtpCommands` | `ftp_commands.dfy` | login and the single-exchange commands, plus the `FtpApi` class (the source's `FTPAPI`) whose `login_server` stores the control socket |
| `FtpDownload` | `ftp_download.dfy` | the segment plan, the scratch path, the download worker with its receive loop (a method over a `FileImage` object), the sequential run of the workers, and the merge |
| `FtpUpload` | `ftp_upload.dfy` | the send loop, `ftp_replace` and `ftp_append` |

The network and the file system are inputs:

- A server reply is a `Reply`:
  - `Lost` when `send` fails or `recv` reports an error;
  - otherwise the text `recv` delivered (empty when the peer closed).
- A path on which an uninitialised variable or a null pointer handed to the C library decides the
  result returns `Unspecified` instead of a number. Examples are a SIZE reply with fewer than two
  tokens, and a closing reply that carries no number in the uploads. Where such a value cannot
  reach the result, the model only marks it as unknown. One case is the size `ftp_filesize` reads
  with `atoi` from its untouched answer buffer after a failed exchange: it is `None`, and the call
  returns the exchange's -1.
- The data socket's chunks, whether a connection or a file opens, the block at which reading a local
  file fails, and the block at which a `send` or a stream fails are fields of an environment
  datatype that each operation reads.

The behaviour as written is kept. Lemmas state its consequences:

- Each download worker seeks the scratch file to the absolute REST offset. A resumed download
  therefore leaves the destination as local bytes, as many zero bytes again, then the rest of the
  remote file (`ResumeInsertsZeros`). Only a download from scratch reproduces the remote file.
- The worker writes every chunk whole until the count reaches its segment size, then `size % len`
  bytes of the chunk that passes it, for any stream (`ReceivedCrossing`). That is exact when the
  chunks up to that one have one length (`ReceivedEvenUpTo`, `ReceivedUniform`). For other chunk
  sizes it can write too much or too little (`ReceivedOverrunWritesTooMuch`,
  `ReceivedOverrunWritesTooLittle`).
- `sscanf` leaves `result` as it was when a reply has no leading number. So MKD, CDUP, RMD, DELE and
  RNTO report success on such a reply, while CWD, TYPE and NOOP report failure
  (`UnnumberedReplySucceeds`).
- Two sentinels differ between otherwise identical paths: `ftp_replace` reports a short `send` as
  -1, and `ftp_append` reports it as -3.
- The download ignores the workers' return values. Its result comes from SIZE and the merge alone.
- `ftp_append` opens the data connection before it asks for SIZE.
- A read error makes `fread` return 0, which the copy loops of the merge and both uploads take for
  the end of the file. The operation then reports success with only part of the data copied
  (`Copied`, `Merge`, `Finish`).
- A negative size reported by the server makes `fseek` fail, so the upload starts from byte 0
  (`SeekFrom`).

## Model

| member | source | states |
|---|---|---|
| FtpCommon.WriteAt | ftpapi.h:927-928 | a seek to an absolute position followed by a write yields a file as long as the old one or reaching the end of the write, whichever is longer; writing nothing changes nothing |
| FtpCommon.WriteAtIndex | ftpapi.h:927-928 | every byte after a positioned write is the written byte inside the range, the old byte outside it, and zero in a hole past the old end |
| FtpCommon.WriteAtKeepsBefore | ftpapi.h:968-973 | a write never changes the bytes before its position |
| FtpCommon.WriteAtHolds | ftpapi.h:968-973 | after a non-empty write the written range holds exactly the data |
| FtpCommon.WriteAtConsecutive | ftpapi.h:963-979 | two writes, the second starting where the first ended, equal one write of both pieces, so chunks written one after another land contiguously |
| FtpCommon.WriteAtOverZeros | ftpapi.h:833-847 | a write that reaches the end of a zero-filled image leaves zeros up to its position, then the data |
| FtpCommon.Transferred | ftpapi.h:858-871 | a block-by-block copy delivers a prefix of its data; it delivers all of it exactly when no block fails, and otherwise the whole blocks before the failing one |
| FtpCommon.Copied | ftpapi.h:858-871 | a copy loop that `fread` may end early and a write may fail copies a prefix of the data, all of it exactly when neither event falls inside the data |
| FtpCommon.CopyFailsWhen | ftpapi.h:858-871 | the write-side failure is reached exactly when its block exists and comes before the block where `fread` gives up |
| FtpCommon.CopyCompletes | ftpapi.h:1048-1057 | a copy that does not fail stops only at the read error, so it copies everything exactly when `fread` never gives up early |
| FtpReply.Show | ftpapi.h:943 | decimal text of a number (as `%ld` prints the REST offset) is non-empty and all digits |
| FtpReply.ScanInt | ftpapi.h:365 | `%d` matches exactly when, after white space, a digit or a sign then a digit follows; it consumes input and stops before a digit-free remainder |
| FtpReply.ScanIntShow | ftpapi.h:365 | reading back a printed number followed by non-digit text gives the number and exactly that text |
| FtpReply.ScanIntNoDigits | ftpapi.h:365 | `%d` fails on text without digits |
| FtpReply.NextToken | ftpapi.h:389-390 | `strtok` on spaces finds no token exactly when only spaces remain; a token is non-empty and free of spaces, and what follows it is empty or starts with a space |
| FtpReply.NextTokenDecomposes | ftpapi.h:389-390 | the reply is the leading spaces, then the token, then the rest |
| FtpReply.SendCmd | ftpapi.h:355-368 | a failed exchange (send error, receive error, or closed connection) gives -1 |
| FtpReply.SendCmdReadsCode | ftpapi.h:355-368 | a reply beginning with a printed code yields that code |
| FtpReply.SendCmdUnnumbered | ftpapi.h:363-366 | a non-empty reply without digits yields 0, the value the successful exchange left in `result` |
| FtpReply.SendCmdArg | ftpapi.h:378-393 | a failed exchange gives -1 and leaves the answer buffer alone; no value exactly when a received reply has fewer than two tokens; a copied answer is the reply's second space-separated token, non-empty, free of spaces and shorter than the reply |
| FtpReply.SendCmdArgReads | ftpapi.h:378-393 | on `<code> <token><rest>`, where the rest is empty or starts with a space (`550 No such file`), the code is read and the second token is copied |
| FtpReply.SendCmdArgShow | ftpapi.h:378-393 | on `<code> <number><tail>` the code is read and the second token, tail included, is copied; `atoi` of it is the number |
| FtpReply.FileSize | ftpapi.h:719-737 | no value exactly when the reply has fewer than two tokens; status 0 exactly on code 213 (or a literal 0), with a size; otherwise the code itself |
| FtpReply.FileSizeOnReply | ftpapi.h:719-737 | on `<code> <token><rest>`: status 0 on 213 (or a literal 0), otherwise the code, with `atoi` of the token as the size |
| FtpReply.FileSizeReads | ftpapi.h:719-737 | a `213 <n>` reply reports size `n`; any other code is passed back with the size still parsed |
| FtpReply.FileSizeExample | ftpapi.h:724-736 | `213 3582\r\n` reports a 3582-byte file |
| FtpReply.RecvCode | ftpapi.h:987-990 | a lost reply gives no value; a reply without a number leaves the prior value of `result`; otherwise the number read |
| FtpReply.TransferDone | ftpapi.h:986-998 | the transfer result is 0 exactly when the status read is 226 (or 0), is otherwise that status, and is undefined exactly when the status is |
| FtpReply.TransferDoneOnCode | ftpapi.h:986-998 | on a printed code: 0 for 226 and the code otherwise; on an unnumbered reply: the prior value mapped the same way; on a lost reply: no value |
| FtpPasv.FirstParen | ftpapi.h:504 | the position found is the first `(`, and there is none exactly when no `(` occurs |
| FtpPasv.ScanFields | ftpapi.h:504 | a successful scan of `k` comma-separated integers yields exactly `k` values |
| FtpPasv.ParsePasv | ftpapi.h:504 | a parsed endpoint needs at least one character before the first `(`; it consists of the six integers after it, with port `p1*256+p2` |
| FtpPasv.ScanFieldsJoined | ftpapi.h:504 | numbers printed with commas between them are scanned back exactly |
| FtpPasv.ParsePasvReads | ftpapi.h:504-510 | whatever text precedes the parenthesis, the six printed numbers decode to the address octets and the port `p1*256+p2` |
| FtpPasv.PasvExample | ftpapi.h:504-510 | `227 Entering Passive Mode (192,168,1,10,4,1).` names 192.168.1.10, port 1025 |
| FtpPasv.WirePort | ftpapi.h:260 | the port on the wire is 16 bits wide and equals the computed port when that fits |
| FtpPasv.PasvConnect | ftpapi.h:489-519 | the call fails exactly when the connect fails; the target is known exactly when the exchange succeeded and the reply parses, and is then the parsed endpoint |
| FtpCommands.Line | ftpapi.h:407 | a command line starts with the verb and a space, and is three characters longer than verb and argument together |
| FtpCommands.Login | ftpapi.h:403-435 | 0 exactly on 230 to USER, or on 331 to USER then 230 to PASS; -1 otherwise; PASS is sent exactly after 331 |
| FtpCommands.LoginOnCodes | ftpapi.h:403-435 | with printed codes, the result and the lines sent for every pair of codes |
| FtpCommands.Type | ftpapi.h:469-481 | sends `TYPE <mode>`; 0 exactly on 200, -1 otherwise |
| FtpCommands.Noop | ftpapi.h:527-539 | sends `NOOP`; 0 exactly on 200, -1 otherwise |
| FtpCommands.Cwd | ftpapi.h:548-562 | sends `CWD <path>`; 0 exactly on 250, -1 otherwise |
| FtpCommands.Cdup | ftpapi.h:570-583 | sends `CDUP`; 0 exactly on 250, 200 or a reply read as 0; otherwise the code |
| FtpCommands.Mkd | ftpapi.h:592-606 | sends `MKD <path>`; 0 exactly on 257 or a reply read as 0; otherwise the code |
| FtpCommands.Pwd | ftpapi.h:615-630 | 0 exactly on 257 or a reply read as 0, otherwise the code; the path buffer receives the reply's second token; no value when there is none |
| FtpCommands.PwdOnReply | ftpapi.h:615-630 | on `<code> <dir><rest>` (`257 "/home" is the current directory`): 0 on 257 or a literal 0, otherwise the code, and the quoted directory is copied |
| FtpCommands.Rmd | ftpapi.h:695-709 | sends `RMD <path>`; 0 exactly on 250 or a reply read as 0; otherwise the code |
| FtpCommands.Dele | ftpapi.h:746-760 | sends `DELE <file>`; 0 exactly on 250 or a reply read as 0; otherwise the code |
| FtpCommands.Rename | ftpapi.h:770-790 | RNTO is sent exactly after 350 to RNFR; otherwise the RNFR code is returned; after RNTO, 0 exactly on 250 or a reply read as 0, else the code |
| FtpCommands.LostExchange | ftpapi.h:327-335 | every command reports -1 on a failed exchange, and rename stops after RNFR |
| FtpCommands.UnnumberedReplySucceeds | ftpapi.h:592-606 | on a reply without a number, MKD, CDUP, RMD, DELE and RNTO report success while CWD, TYPE and NOOP report failure |
| FtpCommands.CommandsOnCode | ftpapi.h:469-606 | for a printed code, each single command's result on every code |
| FtpCommands.FtpApi.constructor | ftpapi.h:206 | the class has no constructor, so the control socket starts with an arbitrary value |
| FtpCommands.FtpApi.LoginServer | ftpapi.h:46-60 | the control socket field takes the connect result; -1 exactly when it could not connect, -2 exactly when the login fails, and the socket after a connected, successful login |
| FtpDownload.Section | ftpapi.h:839 | division by four truncating toward zero, for either sign |
| FtpDownload.Plan | ftpapi.h:839-847 | four segments from the downloaded size, each starting where the previous one ends, the last ending at the remote size; sizes are non-negative and the last one is larger by the remainder |
| FtpDownload.LastDot | ftpapi.h:828 | the index of the last `.` |
| FtpDownload.ScratchPath | ftpapi.h:826-829 | `temp` is inserted before the last `.`; the path is four characters longer and never equals the destination |
| FtpDownload.ScratchPathOfExtension | ftpapi.h:826-829 | `base.ext` is fetched through `basetemp.ext`, whatever dots `base` holds |
| FtpDownload.FileImage.Write | ftpapi.h:968-973 | the file becomes the positioned write of the data |
| FtpDownload.FileImage.Append | ftpapi.h:860 | the data is added at the end of the file |
| FtpDownload.Take | ftpapi.h:966-973 | what the worker writes of one chunk is a prefix of it |
| FtpDownload.TakeWrites | ftpapi.h:966-973 | the chunk that passes the size gives `size % len` of its bytes; a chunk that does not is written whole |
| FtpDownload.Received | ftpapi.h:962-979 | the definition of what the receive loop writes, with only the empty stream stated in its own contract; what it writes is characterised by `ReceivedCrossing`, `ReceivedPrefix`, `ReceivedAll`, `ReceivedEvenUpTo` and `ReceivedUniform` |
| FtpDownload.ReceivedStep | ftpapi.h:963-979 | one loop turn adds the written part of one chunk, and the loop stops exactly when the count reaches the size |
| FtpDownload.ReceivedPrefix | ftpapi.h:962-979 | the worker writes a prefix of the bytes the server sent |
| FtpDownload.ReceivedAll | ftpapi.h:962-979 | a stream that ends before passing the size is written whole |
| FtpDownload.ReceivedCrossing | ftpapi.h:962-979 | for any stream, when chunk `k` is the first to take the count to the size or past it, the worker writes the chunks before it whole and then `Take` of chunk `k`, not the bytes still missing |
| FtpDownload.ReceivedEvenUpTo | ftpapi.h:962-979 | when the chunks up to the one that reaches the size share one length, exactly the first `size` bytes are written, whatever the later chunks are |
| FtpDownload.ReceivedUniform | ftpapi.h:966-968 | with chunks of equal length, the worker writes exactly the first `size` bytes |
| FtpDownload.ReceivedOverrunWritesTooMuch | ftpapi.h:966-968 | chunks of 3 and 5 bytes against size 4 write 7 bytes |
| FtpDownload.ReceivedOverrunWritesTooLittle | ftpapi.h:966-968 | chunks of 2 and 3 bytes against size 4 write 3 bytes |
| FtpDownload.Receive | ftpapi.h:962-979 | the receive loop leaves the file as one positioned write, at the offset, of what `Received` specifies |
| FtpDownload.WorkerData | ftpapi.h:941-979 | a worker writes exactly when PASV connects, REST gets 350 and RETR gets 150, and then writes a prefix of the stream |
| FtpDownload.WorkerResult | ftpapi.h:919-999 | -2 when PASV fails; the REST code when it is not 350; the RETR code when it is not 150; after a transfer, 0 on a closing 226 (or 0) and otherwise the closing code, with 150 kept when the closing reply has no number; a result of 0 needs a transfer or a reply read as 0; no value only after a transfer whose closing reply is lost |
| FtpDownload.WorkerResultOnCodes | ftpapi.h:941-998 | for printed REST, RETR and closing codes: the REST code unless 350, then the RETR code unless 150, then 0 on 226 and the closing code otherwise; 150 when the closing reply has no number |
| FtpDownload.Place | ftpapi.h:927-979 | a worker only grows the file, and leaves it alone when it returns before receiving |
| FtpDownload.PlaceKeepsBefore | ftpapi.h:927-979 | a worker never changes the bytes before its offset |
| FtpDownload.Worker | ftpapi.h:919-999 | the result is `WorkerResult` and the file is `Place` of what it received; TYPE and PASV are sent, REST exactly when connected, RETR exactly after 350 |
| FtpDownload.Applied | ftpapi.h:840-847 | running the workers one after another never shrinks the file |
| FtpDownload.AppliedStep | ftpapi.h:840-847 | the first `k` workers are the first `k - 1` followed by worker `k - 1` |
| FtpDownload.AppliedContiguous | ftpapi.h:840-847 | workers that each receive their own segment leave the file as one write of the whole covered range at the first offset |
| FtpDownload.AppliedCovering | ftpapi.h:833-847 | a contiguous plan running to the end of the remote file, over a zero-filled image, gives zeros up to its start, then the remote bytes |
| FtpDownload.ScratchAfterIdealWorkers | ftpapi.h:833-847 | with ideal workers, the scratch file holds `downloaded` zero bytes, then the missing part of the remote file |
| FtpDownload.Merge | ftpapi.h:850-875 | -3 exactly when the stream error is reached before `fread` gives up, otherwise 0; the destination gains the scratch contents, or only the whole blocks before a read error or a stream error |
| FtpDownload.Scattered | ftpapi.h:833-847 | the scratch file is at least as long as the part to download |
| FtpDownload.Fetch | ftpapi.h:833-847 | a new scratch file of `remaining` zero bytes is created under the scratch path, and the four workers run in order into it |
| FtpDownload.Download | ftpapi.h:800-876 | -1 when a file cannot be opened or created; the SIZE status when it is not 0; no value when the SIZE reply has too few tokens or announces fewer bytes than are local; otherwise the merge's result; the destination changes only by the merge |
| FtpDownload.ServedWorkerDelivers | ftpapi.h:941-979 | a worker whose server accepts REST and RETR and sends the file from the offset to its end writes exactly its segment, in any chunks when the segment ends the file, otherwise when the chunks up to the segment's end share one length |
| FtpDownload.ServedWorkersDeliver | ftpapi.h:840-847 | workers served that way deliver every segment of the plan |
| FtpDownload.ServedScattered | ftpapi.h:833-847 | four workers served that way leave the pre-allocated scratch image as zero bytes up to the resume point, then the rest of the remote file |
| FtpDownload.ServedScratch | ftpapi.h:833-847 | after four workers served that way, the scratch file holds as many zero bytes as were local, then the rest of the remote file |
| FtpDownload.ResumeInsertsZeros | ftpapi.h:808-875 | with workers served that way and a merge that reads the scratch file without error, the destination `Download` leaves is the local bytes, as many zeros, then the rest of the remote file; that equals the remote file exactly when nothing was local |
| FtpUpload.SendAll | ftpapi.h:1048-1057 | the loop fails exactly when a short send comes before a read error; the wire carries the whole file, or the whole blocks before the read error or the short send |
| FtpUpload.Finish | ftpapi.h:1046-1076 | after 150: the given failure code on a short send, otherwise the closing reply's mapping; the wire carries all the data exactly when no read error cut it short |
| FtpUpload.Replace | ftpapi.h:1009-1076 | -1 when the file does not open; -2 when PASV fails; the STOR code unless 150; after 150, -1 on a short send, else 0 exactly on 226; a 0 means 226 was read after sending the file up to any read error (all of it exactly when there was none), or the STOR reply read as 0 |
| FtpUpload.ResumeFrom | ftpapi.h:1115-1124 | the upload gives up exactly on a SIZE status other than 0 and 550, and then with that status; 550 resumes from 0, and 213 from the reported size |
| FtpUpload.ResumeFromOnReplies | ftpapi.h:1115-1124 | on `<code> <token><rest>`: 213 resumes at `atoi` of the token, 550 from 0 whatever text follows it, any other code ends the upload with it |
| FtpUpload.ResumeFromSize | ftpapi.h:1115-1124 | `213 <n>` resumes at byte `n` |
| FtpUpload.ResumeFromRefusal | ftpapi.h:1115-1124 | `550 No such file\r\n` resumes from byte 0 |
| FtpUpload.SeekFrom | ftpapi.h:1137 | a non-negative offset is kept, and a negative one leaves the read position at 0 |
| FtpUpload.Append | ftpapi.h:1086-1180 | lines TYPE, PASV, SIZE and APPE in that order; -2 when PASV fails; the SIZE status when the upload gives up; 0 with no APPE when the server holds as many bytes; after 150, -3 on a short send, else 0 exactly on 226; without a short send, the server-side head plus the wire equal the local file exactly when no read error cut the send short |

## Left out

- Winsock start-up and shutdown, `socket_connect`, `connect_server` and its greeting loop, `ftp_quit`
  and `ftp_list`: these are socket set-up and a directory listing outside the modelled core. Their
  outcomes enter the model as inputs: the `connected` argument of `LoginServer` and the `connects`
  flags.
- The public forwarding wrappers (`ftp_noop()`, `ftp_cwd(path)` and so on) are not modelled. They
  only pass `clientSocket` to the members modelled here.
- Logging through `qDebug` and `printf` is not modelled, and neither is the `ftp_sendcmd_re` copy of
  the reply into a caller's buffer. The reply text itself is the input.
- `create_null_file` (`CreateFile` / `CreateFileMapping`) and the `MultiByteToWideChar` conversion
  are reduced to one flag, `scratchCreated`, and a zero-filled image of `remaining` bytes. The
  Windows rule that mapping a zero-length file fails is part of that flag's input.
- Threads: `ftp_download` joins each worker before it starts the next one, so the workers are
  modelled running in order. The shared control socket and any concurrency are not modelled.
- Integers are unbounded. The 32-bit `int` and `long` of Windows (offsets, `%d`, `atoi`, the
  `DWORD` size passed to `create_null_file`) are not modelled. Neither is the wrap-around of
  `p1*256+p2` before `htons`, except through `WirePort`.
- `Fits`: a reply of `BUFSIZE` bytes (whose terminating NUL is written past the buffer) and a reply
  with an embedded NUL are excluded by precondition rather than modelled.
- FtpDownload.Merge: the partial block in front of a stream error, and the `write_len <= 0` exit of
  the merge loop (a short `fwrite`), are not modelled. On error the destination keeps exactly the
  whole blocks before the failing one. A read error is modelled only as `fread` returning 0 at a
  block boundary. A short read followed by `ferror` counts as a stream error.
- FtpUpload.SendAll: the bytes of a partially sent block are not modelled. The wire carries the
  whole blocks before the short one. A read error is modelled only as `fread` returning 0 at a block
  boundary.
- FtpDownload.Worker: requires a non-negative offset and size (`nat`). A negative remaining size
  makes `Download` return `Unspecified` before any worker runs.
- FtpDownload.Download: when the server reports fewer bytes than the local file holds, the result is
  `Unspecified`. The outcome would depend on a negative size converted to `DWORD` inside
  `CreateFileMapping`.
- FtpDownload.Download: requires a `.` in the destination path. Without one, `substr(npos)` throws
  an exception, which is not modelled.
- Receive time-outs are not modelled. `login_server` sets `SO_RCVTIMEO` to 0 on the control socket
  (ftpapi.h:410-411), so every `recv` blocks until the server answers or the connection fails. The
  model only sees the reply or its loss.
- Handle and socket leaks on early returns are not modelled, for example the data socket `ftp_append`
  leaves open when the server already holds the whole file.
- The streams are assumed to open, except where the source tests for it. The worker's `fstream` on
  the scratch file is taken to open, and the merge reads the scratch file from its start.
