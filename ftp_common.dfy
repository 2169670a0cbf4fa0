/** Shared vocabulary of the FTP client model: optional values, the
    outcome of an operation whose C++ code may read an uninitialised value,
    bytes, the receive-buffer size, and positioned writes into a file image. */
module FtpCommon {

  datatype Option<+T> = None | Some(value: T)

  /** What an operation of the client returns.  `Ret(n)` is the `int` the
      C++ member returns; `Unspecified` stands for the paths where the C++
      code returns an uninitialised variable or dereferences a null pointer,
      so that no particular value can be promised. */
  datatype Outcome = Ret(value: int) | Unspecified

  newtype byte = x: int | 0 <= x < 256

  /** `#define BUFSIZE 1024`: the size of every receive and file buffer. */
  const BufSize: nat := 1024

  function Max(a: int, b: int): int { if a < b then b else a }

  function Min(a: int, b: int): int { if a < b then a else b }

  /** A file image of `n` zero bytes (a freshly pre-allocated file). */
  function Zeros(n: nat): (z: seq<byte>)
    ensures |z| == n && forall i :: 0 <= i < n ==> z[i] == 0
  {
    seq(n, _ => 0)
  }

  /** One byte written at absolute position `pos`; a position past the end
      first extends the file with zero bytes. */
  function PutByte(s: seq<byte>, pos: nat, x: byte): (r: seq<byte>)
    ensures |r| == Max(|s|, pos + 1)
  {
    if pos < |s| then s[pos := x] else s + Zeros(pos - |s|) + [x]
  }

  lemma {:induction false} PutByteIndex(s: seq<byte>, pos: nat, x: byte, i: nat)
    requires i < |PutByte(s, pos, x)|
    ensures PutByte(s, pos, x)[i] == if i == pos then x else if i < |s| then s[i] else 0
  {
  }

  /** The file image after seeking to absolute position `pos` and writing
      `data`: bytes in `[pos, pos + |data|)` are replaced, a write past the
      end extends the file, and any hole between the old end and `pos` reads
      as zero bytes.  Writing nothing leaves the file as it was, wherever
      the position is. */
  function WriteAt(s: seq<byte>, pos: nat, data: seq<byte>): (r: seq<byte>)
    ensures |r| == if data == [] then |s| else Max(|s|, pos + |data|)
    decreases |data|
  {
    if data == [] then s else WriteAt(PutByte(s, pos, data[0]), pos + 1, data[1..])
  }

  /** Byte `i` after the write: from `data` inside the written range, and
      outside it the old byte, or zero in the hole a write past the end
      leaves. */
  lemma {:induction false} WriteAtIndex(s: seq<byte>, pos: nat, data: seq<byte>, i: nat)
    requires i < |WriteAt(s, pos, data)|
    ensures WriteAt(s, pos, data)[i] ==
      if pos <= i < pos + |data| then data[i - pos] else if i < |s| then s[i] else 0
    decreases |data|
  {
    if data != [] {
      WriteAtIndex(PutByte(s, pos, data[0]), pos + 1, data[1..], i);
      if i < |PutByte(s, pos, data[0])| {
        PutByteIndex(s, pos, data[0], i);
      }
    }
  }

  /** A write never touches the bytes before its position. */
  lemma {:induction false} WriteAtKeepsBefore(s: seq<byte>, pos: nat, data: seq<byte>)
    ensures forall i :: 0 <= i < |s| && i < pos ==> WriteAt(s, pos, data)[i] == s[i]
  {
    forall i | 0 <= i < |s| && i < pos ensures WriteAt(s, pos, data)[i] == s[i] {
      WriteAtIndex(s, pos, data, i);
    }
  }

  /** Writing over a zero-filled image that the write reaches the end of
      leaves zeros up to the position, then the data. */
  lemma {:induction false} WriteAtOverZeros(n: nat, pos: nat, data: seq<byte>)
    requires data != [] && n <= pos + |data|
    ensures WriteAt(Zeros(n), pos, data) == Zeros(pos) + data
  {
    var r := WriteAt(Zeros(n), pos, data);
    var e := Zeros(pos) + data;
    assert |r| == |e|;
    forall i | 0 <= i < |r| ensures r[i] == e[i] {
      WriteAtIndex(Zeros(n), pos, data, i);
      if i < pos {
        assert e[i] == Zeros(pos)[i] == 0;
      } else {
        assert e[i] == data[i - pos];
      }
    }
    assert r == e;
  }

  /** The written range holds `data`. */
  lemma {:induction false} WriteAtHolds(s: seq<byte>, pos: nat, data: seq<byte>)
    ensures data != [] ==> WriteAt(s, pos, data)[pos..pos + |data|] == data
  {
    if data != [] {
      var r := WriteAt(s, pos, data);
      forall i | 0 <= i < |data| ensures r[pos + i] == data[i] {
        WriteAtIndex(s, pos, data, pos + i);
      }
    }
  }

  /** Two consecutive writes, the second starting where the first ended,
      leave the same image as one write of both pieces: this is why a
      stream written chunk by chunk lands contiguously. */
  lemma {:induction false} WriteAtConsecutive(s: seq<byte>, pos: nat, a: seq<byte>, b: seq<byte>)
    ensures WriteAt(WriteAt(s, pos, a), pos + |a|, b) == WriteAt(s, pos, a + b)
    decreases |a|
  {
    if a == [] {
      assert a + b == b;
    } else {
      assert (a + b)[0] == a[0] && (a + b)[1..] == a[1..] + b;
      WriteAtConsecutive(PutByte(s, pos, a[0]), pos + 1, a[1..], b);
    }
  }

  /** Regrouping text split at a separator. */
  lemma {:induction false} Reassociate<T>(a: seq<T>, b: seq<T>, c: seq<T>)
    ensures (a + b) + c == a + (b + c)
  {
  }

  lemma {:induction false} PrefixOfAppend<T>(a: seq<T>, b: seq<T>, n: nat)
    requires |a| <= n <= |a| + |b|
    ensures (a + b)[..n] == a + b[..n - |a|]
  {
  }

  lemma {:induction false} Regroup<T>(a: seq<T>, sep: T, b: seq<T>, c: seq<T>)
    ensures a + [sep] + b + c == a + ([sep] + (b + c))
  {
  }

  /** Whether a block-by-block transfer of `n` bytes (`BufSize` bytes per
      `fread`) fails at block `k`: the failure is only reached when there
      are more than `k` full blocks before it, that is when block `k`
      exists. */
  predicate BlockFails(n: nat, failAt: Option<nat>) {
    failAt.Some? && failAt.value * BufSize < n
  }

  /** The bytes a block-by-block transfer of `data` gets across: a prefix
      of the data, all of it exactly when no block fails, and otherwise the
      whole blocks before the one that fails. */
  function Transferred(data: seq<byte>, failAt: Option<nat>): (t: seq<byte>)
    ensures t <= data
    ensures t == data <==> !BlockFails(|data|, failAt)
    ensures BlockFails(|data|, failAt) ==> |t| == failAt.value * BufSize < |data|
  {
    if BlockFails(|data|, failAt) then data[..failAt.value * BufSize] else data
  }

  /** The bytes a `fread`/write loop copies when `fread` returns 0 at
      block `stopAt` (a read error, which the loop takes for the end of the
      file) and the write side fails at block `failAt`: whichever of the
      two is reached first ends the copy. */
  function Copied(data: seq<byte>, stopAt: Option<nat>, failAt: Option<nat>): (t: seq<byte>)
    ensures t <= data
    ensures t == data <==> !BlockFails(|data|, stopAt) && !BlockFails(|data|, failAt)
  {
    Transferred(Transferred(data, stopAt), failAt)
  }

  /** Whether the write-side failure is reached: its block exists and
      comes before the block at which `fread` gives up. */
  predicate CopyFails(data: seq<byte>, stopAt: Option<nat>, failAt: Option<nat>)
  {
    BlockFails(|Transferred(data, stopAt)|, failAt)
  }

  lemma {:induction false} CopyFailsWhen(data: seq<byte>, stopAt: Option<nat>, failAt: Option<nat>)
    ensures CopyFails(data, stopAt, failAt) <==>
      BlockFails(|data|, failAt) && (stopAt.None? || failAt.value < stopAt.value)
  {
  }

  /** A copy that does not fail ends at the read error, if there is one:
      it copies all of `data` exactly when `fread` never gives up early. */
  lemma {:induction false} CopyCompletes(data: seq<byte>, stopAt: Option<nat>, failAt: Option<nat>)
    requires !CopyFails(data, stopAt, failAt)
    ensures Copied(data, stopAt, failAt) == Transferred(data, stopAt)
    ensures Copied(data, stopAt, failAt) == data <==> !BlockFails(|data|, stopAt)
  {
  }
}
