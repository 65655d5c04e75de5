// Buffered binary streams (_pyio.py): a reader and a writer that keep a buffer in front
// of a raw stream, and must look like one plain stream with one position.
module BufferedIO {

  type Bytes = seq<bv8>

  datatype Option<T> = None | Some(value: T)

  datatype Error = ValueError | OSError

  function Min(a: int, b: int): int { if a <= b then a else b }

  function Max(a: int, b: int): int { if a >= b then a else b }

  // ----- pieces of a stream -----

  // What lies between two positions; nothing lies past the end.
  function Slice(data: Bytes, lo: nat, hi: nat): (r: Bytes)
    requires lo <= hi
    ensures |r| <= hi - lo
    ensures |r| == hi - lo <==> lo == hi || hi <= |data|
  {
    data[Min(lo, |data|)..Min(hi, |data|)]
  }

  lemma SliceJoin(data: Bytes, lo: nat, mid: nat, hi: nat)
    requires lo <= mid <= hi
    ensures Slice(data, lo, mid) + Slice(data, mid, hi) == Slice(data, lo, hi)
  {
    var a, b, c := Min(lo, |data|), Min(mid, |data|), Min(hi, |data|);
    CutJoin(data, a, b, c);
  }

  lemma CutJoin(data: Bytes, a: nat, b: nat, c: nat)
    requires a <= b <= c <= |data|
    ensures data[a..b] + data[b..c] == data[a..c]
  {
    var left, right, whole := data[a..b], data[b..c], data[a..c];
    forall i | 0 <= i < c - a ensures (left + right)[i] == whole[i] {
      if i >= b - a {
        assert (left + right)[i] == right[i - (b - a)];
      }
    }
    assert left + right == whole;
  }

  // A slice that is as long as its bounds say can be cut anywhere.
  lemma SliceCut(data: Bytes, lo: nat, hi: nat, k: nat)
    requires lo + k <= hi && |Slice(data, lo, hi)| == hi - lo
    ensures Slice(data, lo, hi)[..k] == Slice(data, lo, lo + k)
    ensures Slice(data, lo, hi)[k..] == Slice(data, lo + k, hi)
  {
    if lo < hi {
      assert hi <= |data| && Slice(data, lo, hi) == data[lo..hi];
      assert data[lo..hi][..k] == data[lo..lo + k];
      assert data[lo..hi][k..] == data[lo + k..hi];
    }
  }

  function Join(parts: seq<Bytes>): Bytes {
    if |parts| == 0 then [] else Join(parts[..|parts| - 1]) + parts[|parts| - 1]
  }

  lemma JoinPush(parts: seq<Bytes>, last: Bytes)
    ensures Join(parts + [last]) == Join(parts) + last
  {
    assert (parts + [last])[..|parts|] == parts;
  }

  lemma StartJoin(part: Bytes)
    ensures Join([part]) == part
  {
    assert [part][..0] == [];
  }

  // ----- the raw streams -----

  // How many of `most` bytes call number i gives; 0 where it would block.  Beyond the
  // script a call gives all of them.
  function Offer(script: seq<nat>, i: nat, most: nat): (k: nat)
    ensures k <= most
  {
    if i < |script| then Min(script[i], most) else most
  }

  predicate WouldBlock(script: seq<nat>, i: nat) { i < |script| && script[i] == 0 }

  // A readable raw object over fixed contents.  A call may give fewer bytes than were
  // asked for, or none because it would block, as an arbitrary script tells.
  class RawReader {
    const data: Bytes
    const hasReadall: bool
    const script: seq<nat>
    var pos: nat
    var calls: nat
    ghost var blocked: bool  // the last call stopped because it would block
    ghost var asked: int     // how many bytes the last read asked for

    constructor (data: Bytes, hasReadall: bool, script: seq<nat>)
      ensures this.data == data && this.hasReadall == hasReadall && this.script == script
      ensures pos == 0 && calls == 0 && !blocked
    {
      this.data, this.hasReadall, this.script := data, hasReadall, script;
      pos, calls, blocked := 0, 0, false;
    }

    function Left(): nat
      reads this`pos
    {
      if pos < |data| then |data| - pos else 0
    }

    // What a call gave when the position moved from p.
    ghost predicate Gave(p: nat, r: Option<Bytes>)
      reads this
    {
      match r
      case None => pos == p && blocked
      case Some(b) => pos == p + |b| && b == Slice(data, p, pos) && (|b| == 0 ==> pos >= |data|)
    }

    method Read(n: int) returns (r: Option<Bytes>)
      requires n != 0
      modifies this
      ensures calls == old(calls) + 1 && asked == n
      ensures Gave(old(pos), r) && (r.None? <==> WouldBlock(script, old(calls)))
      ensures pos == old(pos) + Offer(script, old(calls), if n < 0 then old(Left()) else Min(n, old(Left())))
      ensures n < 0 && r.Some? ==> (blocked <==> pos < |data|)
      ensures n > 0 && r.Some? ==> !blocked
    {
      if n < 0 {
        r := Readall();
        asked := n;
        return;
      }
      asked := n;
      r := Give(Min(n, Left()));
    }

    method Readall() returns (r: Option<Bytes>)
      modifies this
      ensures calls == old(calls) + 1
      ensures Gave(old(pos), r) && (r.None? <==> WouldBlock(script, old(calls)))
      ensures pos == old(pos) + Offer(script, old(calls), old(Left()))
      ensures r.Some? ==> (blocked <==> pos < |data|)
    {
      r := Give(Left());
      if r.Some? {
        blocked := pos < |data|;
      }
    }

    method Give(most: nat) returns (r: Option<Bytes>)
      requires most <= Left() && (most == 0 ==> Left() == 0)
      modifies this`pos, this`calls, this`blocked
      ensures calls == old(calls) + 1
      ensures Gave(old(pos), r) && (r.None? <==> WouldBlock(script, old(calls)))
      ensures pos == old(pos) + Offer(script, old(calls), most)
      ensures r.Some? ==> !blocked
    {
      var i := calls;
      calls := calls + 1;
      blocked := WouldBlock(script, i);
      if WouldBlock(script, i) {
        return None;
      }
      var k := Offer(script, i, most);
      r := Some(Slice(data, pos, pos + k));
      pos := pos + k;
    }

    // seek: a target before the start is refused and moves nothing.
    method Seek(offset: int, whence: int) returns (r: int)
      requires 0 <= whence <= 2
      modifies this`pos
      ensures r == SeekTarget(data, old(pos), offset, whence)
      ensures pos == if r < 0 then old(pos) else r
    {
      r := SeekTarget(data, pos, offset, whence);
      if r >= 0 {
        pos := r;
      }
    }
  }

  function SeekTarget(data: Bytes, p: nat, offset: int, whence: int): int {
    if whence == 0 then offset else if whence == 1 then p + offset else |data| + offset
  }

  // The three origins are the start, the position and the end, and the offset counts bytes.
  lemma SeekOrigins(data: Bytes, p: nat, offset: int, whence: int)
    requires 0 <= whence <= 2
    ensures SeekTarget(data, p, 0, 0) == 0 && SeekTarget(data, p, 0, 1) == p && SeekTarget(data, p, 0, 2) == |data|
    ensures SeekTarget(data, p, offset + 1, whence) == SeekTarget(data, p, offset, whence) + 1
  {
  }

  // ----- the plain stream a buffered reader must look like -----

  // A size of -1 stands for None too.
  datatype Op = Read(n: int) | Read1(n: int) | Peek(n: int) | Seek(offset: int, whence: int) | Tell

  datatype Answer = Data(bytes: Bytes) | NoData | Position(p: nat) | Failed(error: Error)

  // What an unbuffered stream at position p may answer, and where it is afterwards.
  // An answer may be short only at the end of the contents or when a raw call blocked.
  predicate PlainStep(data: Bytes, p: nat, op: Op, answer: Answer, q: nat, blocked: bool) {
    match op
    case Read(n) =>
      if n < -1 then answer == Failed(ValueError) && q == p
      else if answer == NoData then n != 0 && q == p && blocked
      else
        && Consumed(data, p, answer, q)
        && (n >= 0 ==> |answer.bytes| <= n)
        && (n == -1 || |answer.bytes| < n ==> q >= |data| || blocked)
        && (n != 0 && |answer.bytes| == 0 ==> q >= |data|)
    case Read1(n) =>
      && Consumed(data, p, answer, q)
      && (n >= 0 ==> |answer.bytes| <= n)
      && (n != 0 && |answer.bytes| == 0 ==> q >= |data| || blocked)
    case Peek(_) =>
      && q == p
      && Consumed(data, p, answer, p + if answer.Data? then |answer.bytes| else 0)
      && (|answer.bytes| == 0 ==> p >= |data| || blocked)
    case Seek(offset, whence) =>
      if whence < 0 || whence > 2 then answer == Failed(ValueError) && q == p
      else
        var target := SeekTarget(data, p, offset, whence);
        if target < 0 then answer == Failed(OSError) && q == p else answer == Position(target) && q == target
    case Tell => answer == Position(p) && q == p
  }

  lemma PeekAnswer(data: Bytes, p: nat, n: int, unread: Bytes, pos: nat, blocked: bool)
    requires p <= pos && |unread| == pos - p && unread == Slice(data, p, pos)
    requires |unread| == 0 ==> p >= |data| || blocked
    ensures PlainStep(data, p, Op.Peek(n), Data(unread), p, blocked)
  {
  }

  lemma ExactAnswer(data: Bytes, p: nat, n: nat, got: Bytes, q: nat, blocked: bool)
    requires |got| == n && q == p + n && got == Slice(data, p, q)
    ensures PlainStep(data, p, Op.Read(n), Data(got), q, blocked)
  {
  }

  lemma ReadAnswer(data: Bytes, p: nat, n: int, got: Bytes, nodata: Answer, q: nat, blocked: bool)
    requires n >= -1 && n != 0 && q == p + |got| && got == Slice(data, p, q)
    requires n == -1 || |got| <= n
    requires n == -1 || |got| < n ==> q >= |data| || blocked
    requires |got| == 0 ==> nodata == (if blocked then NoData else Data([]))
    ensures PlainStep(data, p, Op.Read(n), if |got| > 0 then Data(got) else nodata, q, blocked)
  {
  }

  // The bytes between p and q, and no others, were given.
  predicate Consumed(data: Bytes, p: nat, answer: Answer, q: nat) {
    answer.Data? && q == p + |answer.bytes| && answer.bytes == Slice(data, p, q)
  }

  // ----- the buffered reader -----

  // How many bytes the read loop takes out of `left` from raw call number i on, when it
  // needs `need` more and asks for `wanted` each time.
  function Pulled(script: seq<nat>, i: nat, left: nat, need: int, wanted: nat): nat
    decreases if need < 0 then 0 else need
  {
    if need <= 0 then 0
    else
      var k := Offer(script, i, Min(wanted, left));
      if k == 0 then 0 else k + Pulled(script, i + 1, left - k, need - k, wanted)
  }

  // How many bytes reading to the end takes out of `left` from raw call number i on, when
  // every call asks for all there is and the first that gives nothing ends the loop.
  function PulledToEnd(script: seq<nat>, i: nat, left: nat): nat
    decreases left
  {
    var k := Offer(script, i, left);
    if k == 0 then 0 else k + PulledToEnd(script, i + 1, left - k)
  }

  lemma PulledToEndStep(script: seq<nat>, i: nat, left: nat, k: nat)
    requires k == Offer(script, i, left)
    ensures PulledToEnd(script, i, left) == if k == 0 then 0 else k + PulledToEnd(script, i + 1, left - k)
  {
  }

  lemma PulledStep(script: seq<nat>, i: nat, left: nat, need: int, wanted: nat)
    requires need > 0
    ensures var k := Offer(script, i, Min(wanted, left));
      Pulled(script, i, left, need, wanted)
      == if k == 0 then 0 else k + Pulled(script, i + 1, left - k, need - k, wanted)
  {
  }

  lemma PulledEnough(script: seq<nat>, i: nat, left: nat, need: int, wanted: nat)
    ensures need <= 0 ==> Pulled(script, i, left, need, wanted) == 0
  {
  }

  class BufferedReader {
    const raw: RawReader
    const bufferSize: int
    var readBuf: Bytes
    var readPos: nat

    constructor (raw: RawReader, bufferSize: int)
      requires bufferSize > 0
      ensures this.raw == raw && this.bufferSize == bufferSize
      ensures Valid() && At() == raw.pos
    {
      this.raw, this.bufferSize, this.readBuf, this.readPos := raw, bufferSize, [], 0;
    }

    // The unread bytes are the ones just before the raw position.
    ghost predicate Valid()
      reads this, raw
    {
      && bufferSize > 0 && readPos <= |readBuf| && |readBuf| - readPos <= raw.pos
      && readBuf[readPos..] == Slice(raw.data, raw.pos - (|readBuf| - readPos), raw.pos)
    }

    // The position of the plain stream.
    ghost function At(): nat
      reads this, raw
      requires Valid()
    {
      raw.pos - (|readBuf| - readPos)
    }

    ghost function Unread(): Bytes
      reads this
      requires readPos <= |readBuf|
    {
      readBuf[readPos..]
    }

    method ResetReadBuf()
      modifies this
      ensures readBuf == [] && readPos == 0
    {
      readBuf, readPos := [], 0;
    }

    method Read(size: int) returns (answer: Answer)
      requires Valid()
      modifies this, raw
      ensures Valid()
      ensures size <= bufferSize + 1 && old(|Unread()|) <= bufferSize ==> |Unread()| <= bufferSize
      ensures size == -1 ==> raw.pos == old(raw.pos) + old(ToEnd()) && Unread() == []
      ensures size > old(|Unread()|) ==> Pulls(size, old(At()), old(|Unread()|), old(raw.calls))
      ensures raw.calls == old(raw.calls) <==> size < -1 || 0 <= size <= old(|Unread()|)
      ensures PlainStep(raw.data, old(At()), Op.Read(size), answer, At(), raw.blocked)
    {
      if size < -1 {
        return Failed(ValueError);
      }
      answer := ReadUnlocked(size);
    }

    // The state after a call that needs n bytes and started at position p with `have`
    // of them buffered: everything the raw reads gave is given or buffered.
    ghost predicate Pulls(n: nat, p: nat, have: nat, calls: nat)
      reads this, raw
      requires Valid()
    {
      var left := if p + have < |raw.data| then |raw.data| - (p + have) else 0;
      && raw.pos == p + have + Pulled(raw.script, calls, left, n - have, Max(bufferSize, n))
      && At() == Min(p + n, raw.pos)
    }

    // How many bytes a read without a size takes from the raw object.
    ghost function ToEnd(): nat
      reads this, raw
    {
      if raw.hasReadall then Offer(raw.script, raw.calls, raw.Left())
      else PulledToEnd(raw.script, raw.calls, raw.Left())
    }

    // Bytes that are all buffered are given without a raw call.
    method ReadUnlocked(n: int) returns (answer: Answer)
      requires Valid() && n >= -1
      modifies this, raw
      ensures Valid()
      ensures PlainStep(raw.data, old(At()), Op.Read(n), answer, At(), raw.blocked)
      ensures n <= bufferSize + 1 && old(|Unread()|) <= bufferSize ==> |Unread()| <= bufferSize
      ensures n == -1 ==> raw.pos == old(raw.pos) + old(ToEnd()) && Unread() == []
      ensures n > old(|Unread()|) ==> Pulls(n, old(At()), old(|Unread()|), old(raw.calls))
      ensures 0 <= n <= old(|Unread()|) ==>
        answer == Data(old(Unread())[..n]) && raw.pos == old(raw.pos) && raw.blocked == old(raw.blocked)
      ensures raw.calls == old(raw.calls) <==> 0 <= n <= old(|Unread()|)
    {
      hide PlainStep, Slice;
      if n == -1 {
        answer := ReadToEnd();
        return;
      }
      if n <= |readBuf| - readPos {
        ghost var p, unread := At(), Unread();
        SliceCut(raw.data, p, raw.pos, n);
        answer := Data(readBuf[readPos..readPos + n]);
        readPos := readPos + n;
        assert answer.bytes == unread[..n] && Unread() == unread[n..];
        ExactAnswer(raw.data, p, n, answer.bytes, p + n, raw.blocked);
      } else {
        answer := ReadMore(n);
      }
    }

    method ReadToEnd() returns (answer: Answer)
      requires Valid()
      modifies this, raw
      ensures Valid()
      ensures PlainStep(raw.data, old(At()), Op.Read(-1), answer, At(), raw.blocked)
      ensures raw.calls > old(raw.calls) && Unread() == []
      ensures raw.pos == old(raw.pos) + old(ToEnd())
    {
      hide PlainStep, Slice, Join, Offer, PulledToEnd;
      var rest := readBuf[readPos..];
      ghost var p := At();
      ResetReadBuf();
      if raw.hasReadall {
        ghost var mid := raw.pos;
        var chunk := raw.Readall();
        SliceJoin(raw.data, p, mid, raw.pos);
        if chunk.None? {
          answer := if |rest| > 0 then Data(rest) else NoData;
          ReadAnswer(raw.data, p, -1, rest, NoData, raw.pos, raw.blocked);
        } else {
          answer := Data(rest + chunk.value);
          ReadAnswer(raw.data, p, -1, rest + chunk.value, Data([]), raw.pos, raw.blocked);
        }
        return;
      }
      var out, nodata := ReadAllChunks(rest, p);
      answer := if |out| > 0 then Data(out) else nodata;
      ReadAnswer(raw.data, p, -1, out, nodata, raw.pos, raw.blocked);
    }

    // The loop for raw objects without readall: it ends at a call that gives nothing.
    method ReadAllChunks(rest: Bytes, ghost p: nat) returns (out: Bytes, nodata: Answer)
      requires raw.pos == p + |rest| && rest == Slice(raw.data, p, raw.pos)
      modifies raw
      ensures raw.pos == p + |out| && out == Slice(raw.data, p, raw.pos)
      ensures raw.pos == old(raw.pos) + PulledToEnd(raw.script, old(raw.calls), old(raw.Left()))
      ensures if raw.blocked then nodata == NoData else nodata == Data([]) && raw.pos >= |raw.data|
      ensures raw.calls > old(raw.calls)
    {
      hide Slice, Join, Offer, PulledToEnd;
      var chunks := [rest];
      nodata := Data([]);
      StartJoin(rest);
      ghost var total := raw.pos + PulledToEnd(raw.script, raw.calls, raw.Left());
      while true
        invariant raw.pos == p + |Join(chunks)| && Join(chunks) == Slice(raw.data, p, raw.pos)
        invariant raw.pos + PulledToEnd(raw.script, raw.calls, raw.Left()) == total
        invariant raw.calls >= old(raw.calls) && nodata == Data([])
        decreases |raw.data| - raw.pos
      {
        ghost var mid, i, left := raw.pos, raw.calls, raw.Left();
        var chunk := raw.Read(-1);
        PulledToEndStep(raw.script, i, left, raw.pos - mid);
        SliceJoin(raw.data, p, mid, raw.pos);
        if chunk.None? {
          nodata := NoData;
          break;
        }
        if |chunk.value| == 0 {
          break;
        }
        JoinPush(chunks, chunk.value);
        chunks := chunks + [chunk.value];
      }
      out := Join(chunks);
    }

    // The slow path: raw reads until n bytes are there, the contents end, or a call
    // would block; what was read beyond n stays in the buffer.
    method ReadMore(n: int) returns (answer: Answer)
      requires Valid() && n > |Unread()|
      modifies this, raw
      ensures Valid()
      ensures PlainStep(raw.data, old(At()), Op.Read(n), answer, At(), raw.blocked)
      ensures raw.calls > old(raw.calls) && raw.asked == Max(bufferSize, n)
      ensures |Unread()| < Max(bufferSize, n) && Pulls(n, old(At()), old(|Unread()|), old(raw.calls))
    {
      hide PlainStep, Slice, Pulled;
      ghost var p := At();
      var out, nodata := ReadChunks(n);
      var k := Min(n, |out|);
      SliceCut(raw.data, p, raw.pos, k);
      readBuf, readPos := out[k..], 0;
      answer := if |out| > 0 then Data(out[..k]) else nodata;
      ReadAnswer(raw.data, p, n, out[..k], nodata, p + k, raw.blocked);
    }

    // The loop: the buffered bytes and those of the raw reads, joined.
    method ReadChunks(n: int) returns (out: Bytes, nodata: Answer)
      requires Valid() && n > |Unread()|
      modifies raw
      ensures raw.pos == old(At()) + |out| && out == Slice(raw.data, old(At()), raw.pos)
      ensures |out| < n + Max(bufferSize, n)
      ensures |out| < n ==> raw.pos >= |raw.data| || raw.blocked
      ensures |out| == 0 ==> nodata == if raw.blocked then NoData else Data([])
      ensures raw.calls > old(raw.calls) && raw.asked == Max(bufferSize, n)
      ensures raw.pos == old(raw.pos)
        + Pulled(raw.script, old(raw.calls), old(raw.Left()), n - old(|Unread()|), Max(bufferSize, n))
    {
      hide Slice, Join, Offer, Pulled;
      var chunks := [readBuf[readPos..]];
      var avail := |readBuf| - readPos;
      var wanted := Max(bufferSize, n);
      nodata := Data([]);
      ghost var p := At();
      ghost var total := raw.pos + Pulled(raw.script, raw.calls, raw.Left(), n - avail, wanted);
      StartJoin(readBuf[readPos..]);
      while avail < n
        invariant |Join(chunks)| == avail < n + wanted && raw.pos == p + avail
        invariant Join(chunks) == Slice(raw.data, p, raw.pos)
        invariant raw.pos + Pulled(raw.script, raw.calls, raw.Left(), n - avail, wanted) == total
        invariant raw.calls >= old(raw.calls) + if avail == |old(Unread())| then 0 else 1
        invariant raw.calls > old(raw.calls) ==> raw.asked == wanted
        decreases n - avail
      {
        ghost var mid := raw.pos;
        PulledStep(raw.script, raw.calls, raw.Left(), n - avail, wanted);
        var chunk := raw.Read(wanted);
        SliceJoin(raw.data, p, mid, raw.pos);
        if chunk.None? {
          nodata := NoData;
          break;
        }
        if |chunk.value| == 0 {
          break;
        }
        avail := avail + |chunk.value|;
        JoinPush(chunks, chunk.value);
        chunks := chunks + [chunk.value];
      }
      PulledEnough(raw.script, raw.calls, raw.Left(), n - avail, wanted);
      out := Join(chunks);
    }

    method Peek(size: int) returns (answer: Answer)
      requires Valid()
      modifies this, raw
      ensures Valid()
      ensures PlainStep(raw.data, old(At()), Op.Peek(size), answer, At(), raw.blocked)
      ensures answer == Data(Unread()) && old(Unread()) <= Unread()
      ensures |Unread()| <= bufferSize <==> old(|Unread()|) <= bufferSize
      ensures raw.calls == old(raw.calls) + if old(|Unread()|) >= Max(1, Min(size, bufferSize)) then 0 else 1
      ensures raw.calls == old(raw.calls) ==> Unread() == old(Unread())
      ensures raw.pos == old(raw.pos) + if raw.calls == old(raw.calls) then 0
        else Offer(raw.script, old(raw.calls), Min(bufferSize - old(|Unread()|), old(raw.Left())))
    {
      answer := PeekUnlocked(size);
    }

    // At most one raw read, for what is missing of a full buffer.
    method PeekUnlocked(n: int) returns (answer: Answer)
      requires Valid()
      modifies this, raw
      ensures Valid()
      ensures PlainStep(raw.data, old(At()), Op.Peek(n), answer, At(), raw.blocked)
      ensures answer == Data(Unread()) && old(Unread()) <= Unread()
      ensures |Unread()| <= bufferSize <==> old(|Unread()|) <= bufferSize
      ensures raw.calls == old(raw.calls) + if old(|Unread()|) >= Max(1, Min(n, bufferSize)) then 0 else 1
      ensures raw.calls == old(raw.calls) ==> Unread() == old(Unread())
      ensures raw.pos == old(raw.pos) + if raw.calls == old(raw.calls) then 0
        else Offer(raw.script, old(raw.calls), Min(bufferSize - old(|Unread()|), old(raw.Left())))
      ensures raw.calls > old(raw.calls) ==> raw.asked == bufferSize - old(|Unread()|)
    {
      hide PlainStep, Slice;
      var want := Min(n, bufferSize);
      var have := |readBuf| - readPos;
      ghost var p, mid := At(), raw.pos;
      if have < want || have <= 0 {
        var current := raw.Read(bufferSize - have);
        if current.Some? && |current.value| > 0 {
          SliceJoin(raw.data, p, mid, raw.pos);
          readBuf, readPos := readBuf[readPos..] + current.value, 0;
        }
      }
      answer := Data(readBuf[readPos..]);
      PeekAnswer(raw.data, p, n, Unread(), raw.pos, raw.blocked);
    }

    // Only buffered bytes, after at most one raw read when there are none.
    method Read1(size: int) returns (answer: Answer)
      requires Valid()
      modifies this, raw
      ensures Valid()
      ensures PlainStep(raw.data, old(At()), Op.Read1(size), answer, At(), raw.blocked)
      ensures raw.calls == old(raw.calls) + if size == 0 || old(|Unread()|) > 0 then 0 else 1
      ensures raw.pos == old(raw.pos)
        + if raw.calls == old(raw.calls) then 0 else Offer(raw.script, old(raw.calls), Min(bufferSize, old(raw.Left())))
      ensures |answer.bytes|
        == Min(if size < 0 then bufferSize else size, old(|Unread()|) + raw.pos - old(raw.pos))
      ensures old(|Unread()|) <= bufferSize ==> |Unread()| <= bufferSize
    {
      var n := if size < 0 then bufferSize else size;
      if n == 0 {
        return Data([]);
      }
      var _ := PeekUnlocked(1);
      answer := ReadUnlocked(Min(n, |readBuf| - readPos));
    }

    // The clamp to 0 never matters while nobody else moves the raw stream.
    method Tell() returns (answer: Answer)
      requires Valid()
      ensures PlainStep(raw.data, At(), Op.Tell, answer, At(), raw.blocked)
    {
      answer := Position(Max(raw.pos - |readBuf| + readPos, 0));
    }

    // A relative seek starts from the position the caller sees, not from the raw one;
    // a refused one loses nothing.
    method Seek(offset: int, whence: int) returns (answer: Answer)
      requires Valid()
      modifies this, raw`pos
      ensures Valid()
      ensures PlainStep(raw.data, old(At()), Op.Seek(offset, whence), answer, At(), raw.blocked)
      ensures if answer.Failed? then Unread() == old(Unread()) && raw.pos == old(raw.pos) else Unread() == []
    {
      if whence < 0 || whence > 2 {
        return Failed(ValueError);
      }
      var pos := offset;
      if whence == 1 {
        pos := pos - (|readBuf| - readPos);
      }
      var target := raw.Seek(pos, whence);
      if target < 0 {
        return Failed(OSError);
      }
      ResetReadBuf();
      answer := Position(target);
    }

    method Do(op: Op) returns (answer: Answer)
      requires Valid()
      modifies this, raw
      ensures Valid()
      ensures PlainStep(raw.data, old(At()), op, answer, At(), raw.blocked)
      ensures Modest(op, bufferSize) && old(|Unread()|) <= bufferSize ==> |Unread()| <= bufferSize
      ensures op.Peek? ==> answer == Data(Unread())
    {
      match op
      case Read(n) => answer := Read(n);
      case Read1(n) => answer := Read1(n);
      case Peek(n) => answer := Peek(n);
      case Seek(offset, whence) => answer := Seek(offset, whence);
      case Tell => answer := Tell();
    }

    // Every run of calls is a run of a plain stream.  When no read asks for more than one
    // byte above the buffer size, no peek gives more than the buffer size.
    method Run(ops: seq<Op>) returns (answers: seq<Answer>, ghost at: seq<nat>, ghost blocks: seq<bool>)
      requires Valid()
      modifies this, raw
      ensures Valid()
      ensures PlainRun(raw.data, ops, answers, at, blocks)
      ensures at[0] == old(At()) && at[|ops|] == At()
      ensures old(|Unread()|) <= bufferSize && (forall op :: op in ops ==> Modest(op, bufferSize)) ==>
        forall i :: 0 <= i < |ops| && ops[i].Peek? ==> WithinSize(answers[i], bufferSize)
    {
      hide PlainStep;
      answers, at, blocks := [], [At()], [];
      for i := 0 to |ops|
        invariant Valid()
        invariant PlainRun(raw.data, ops[..i], answers, at, blocks)
        invariant at[0] == old(At()) && at[i] == At()
        invariant old(|Unread()|) <= bufferSize && (forall op :: op in ops ==> Modest(op, bufferSize)) ==>
          |Unread()| <= bufferSize && forall j :: 0 <= j < i && ops[j].Peek? ==> WithinSize(answers[j], bufferSize)
      {
        var answer := Do(ops[i]);
        answers, at, blocks := answers + [answer], at + [At()], blocks + [raw.blocked];
      }
      assert ops[..|ops|] == ops;
    }
  }

  predicate Modest(op: Op, bufferSize: int) { op.Read? ==> op.n <= bufferSize + 1 }

  predicate WithinSize(answer: Answer, bufferSize: int) { answer.Data? && |answer.bytes| <= bufferSize }

  // For every larger read there is a raw object after which a peek gives more than the
  // buffer size: a raw read that falls one byte short, then one that gives all it is
  // asked for.  With size 4 and a read of 10, the peek gives 9 bytes.
  method PeekBeyondBuffer(data: Bytes, bufferSize: int, n: int) returns (peeked: Answer)
    requires bufferSize > 0 && n >= bufferSize + 2 && |data| >= 2 * n - 1
    ensures peeked == Data(data[n..2 * n - 1]) && |peeked.bytes| > bufferSize
  {
    hide PlainStep, Pulled, Offer, Slice;
    var script: seq<nat> := [n - 1, n];
    PulledTwice(script, |data|, n);
    hide Join;
    var raw := new RawReader(data, false, script);
    var reader := new BufferedReader(raw, bufferSize);
    var _ := reader.Read(n);
    assert raw.pos == 2 * n - 1 && reader.At() == n && |reader.Unread()| == n - 1;
    peeked := reader.Peek(0);
    WholeSlice(data, n, 2 * n - 1);
  }

  lemma WholeSlice(data: Bytes, lo: nat, hi: nat)
    requires lo <= hi <= |data|
    ensures Slice(data, lo, hi) == data[lo..hi]
  {
  }

  lemma PulledTwice(script: seq<nat>, left: nat, n: nat)
    requires script == [n - 1, n] && n > 1 && left >= 2 * n - 1
    ensures Pulled(script, 0, left, n, n) == 2 * n - 1
  {
    hide Pulled;
    PulledStep(script, 0, left, n, n);
    PulledStep(script, 1, left - (n - 1), 1, n);
    PulledEnough(script, 2, left - (n - 1) - n, 1 - n, n);
  }

  // ----- runs of a plain stream -----

  ghost predicate PlainRun(data: Bytes, ops: seq<Op>, answers: seq<Answer>, at: seq<nat>, blocks: seq<bool>) {
    && |answers| == |ops| == |blocks| && |at| == |ops| + 1
    && forall i :: 0 <= i < |ops| ==> PlainStep(data, at[i], ops[i], answers[i], at[i + 1], blocks[i])
  }

  // The bytes an answer takes out of the stream.
  function Taken(op: Op, answer: Answer): Bytes {
    if (op.Read? || op.Read1?) && answer.Data? then answer.bytes else []
  }

  function AllTaken(ops: seq<Op>, answers: seq<Answer>): Bytes
    requires |ops| == |answers|
  {
    var n := |ops|;
    if n == 0 then [] else AllTaken(ops[..n - 1], answers[..n - 1]) + Taken(ops[n - 1], answers[n - 1])
  }

  // Whatever the calls between them, the bytes read are the contents in order, none
  // skipped and none given twice.
  lemma {:induction false} ReadsInOrder(data: Bytes, ops: seq<Op>,
      answers: seq<Answer>, at: seq<nat>, blocks: seq<bool>)
    requires PlainRun(data, ops, answers, at, blocks)
    requires forall i :: 0 <= i < |ops| ==> !ops[i].Seek?
    ensures at[0] <= at[|ops|] && AllTaken(ops, answers) == Slice(data, at[0], at[|ops|])
    ensures at[|ops|] == at[0] + |AllTaken(ops, answers)|
  {
    var n := |ops|;
    if n > 0 {
      ReadsInOrder(data, ops[..n - 1], answers[..n - 1], at[..n], blocks[..n - 1]);
      assert PlainStep(data, at[n - 1], ops[n - 1], answers[n - 1], at[n], blocks[n - 1]);
      assert at[n - 1] <= at[n] && Taken(ops[n - 1], answers[n - 1]) == Slice(data, at[n - 1], at[n]);
      SliceJoin(data, at[0], at[n - 1], at[n]);
    }
  }

  // Calls whose answer a plain stream leaves no freedom in, as long as nothing blocks.
  predicate Determined(op: Op) { op.Read? || op.Seek? || op.Tell? }

  lemma StepDeterministic(data: Bytes, p: nat, op: Op, a: Answer, q: nat, b: Answer, r: nat)
    requires Determined(op) && PlainStep(data, p, op, a, q, false) && PlainStep(data, p, op, b, r, false)
    ensures a == b && q == r
  {
    if op.Read? && op.n >= -1 {
      ReadLength(data, p, op.n, a, q);
      ReadLength(data, p, op.n, b, r);
    }
  }

  // Without blocking, a read gives exactly what is asked for or all there is.
  lemma ReadLength(data: Bytes, p: nat, n: int, a: Answer, q: nat)
    requires n >= -1 && PlainStep(data, p, Op.Read(n), a, q, false)
    ensures a.Data? && a.bytes == Slice(data, p, q)
    ensures var left := Max(|data| - p, 0); |a.bytes| == if n == -1 then left else Min(n, left)
    ensures q == p + |a.bytes|
  {
  }

  // So neither the buffer size nor the lengths of the raw reads can be seen: two runs
  // of the same calls over the same contents give the same answers.
  lemma {:induction false} BufferingInvisible(data: Bytes, ops: seq<Op>,
      answersA: seq<Answer>, atA: seq<nat>, answersB: seq<Answer>, atB: seq<nat>, blocks: seq<bool>)
    requires PlainRun(data, ops, answersA, atA, blocks) && PlainRun(data, ops, answersB, atB, blocks)
    requires atA[0] == atB[0]
    requires forall i :: 0 <= i < |ops| ==> Determined(ops[i]) && !blocks[i]
    ensures answersA == answersB && atA == atB
  {
    hide PlainStep;
    var n := |ops|;
    if n > 0 {
      var k := n - 1;
      BufferingInvisible(data, ops[..k], answersA[..k], atA[..n], answersB[..k], atB[..n], blocks[..k]);
      assert atA[..n][k] == atB[..n][k];
      StepDeterministic(data, atA[k], ops[k], answersA[k], atA[n], answersB[k], atB[n]);
      assert answersA == answersA[..k] + [answersA[k]] && answersB == answersB[..k] + [answersB[k]];
      assert atA == atA[..n] + [atA[n]] && atB == atB[..n] + [atB[n]];
    } else {
      assert atA == [atA[0]] && atB == [atB[0]];
    }
  }

  // ----- the buffered writer -----

  // A writable raw object: a call takes part of the bytes, at least one, or blocks.
  class RawWriter {
    var out: Bytes
    ghost var blocks: nat  // how many calls blocked

    constructor ()
      ensures out == []
    {
      out, blocks := [], 0;
    }

    method Write(b: Bytes) returns (n: Option<nat>)
      requires |b| > 0
      modifies this
      ensures n.None? ==> out == old(out) && blocks == old(blocks) + 1
      ensures n.Some? ==> blocks == old(blocks) && 1 <= n.value <= |b| && out == old(out) + b[..n.value]
    {
      if * {
        blocks := blocks + 1;
        return None;
      }
      var k: nat :| 1 <= k <= |b|;
      out := out + b[..k];
      n := Some(k);
    }
  }

  // Blocked carries characters_written, the length of the prefix that was accepted.
  datatype Written = Wrote(n: nat) | Blocked(n: nat)

  class BufferedWriter {
    const raw: RawWriter
    var bufferSize: int
    var writeBuf: Bytes

    constructor (raw: RawWriter, bufferSize: int)
      requires bufferSize > 0
      ensures this.raw == raw && this.bufferSize == bufferSize && writeBuf == []
    {
      this.raw, this.bufferSize, this.writeBuf := raw, bufferSize, [];
    }

    // Everything accepted so far: what the raw object has, then what is buffered.
    ghost function Stream(): Bytes
      reads this, raw
    {
      raw.out + writeBuf
    }

    method FlushUnlocked() returns (blocked: bool)
      modifies this`writeBuf, raw
      ensures Stream() == old(Stream()) && old(raw.out) <= raw.out
      ensures blocked <==> writeBuf != []
      ensures raw.blocks == old(raw.blocks) + if blocked then 1 else 0
      ensures |writeBuf| <= old(|writeBuf|)
    {
      while writeBuf != []
        invariant Stream() == old(Stream()) && old(raw.out) <= raw.out && |writeBuf| <= old(|writeBuf|)
        invariant raw.blocks == old(raw.blocks)
        decreases |writeBuf|
      {
        ghost var before := writeBuf;
        var n := raw.Write(writeBuf);
        if n.None? {
          return true;
        }
        writeBuf := writeBuf[n.value..];
        assert before == before[..n.value] + writeBuf;
      }
      blocked := false;
    }

    // A prefix of b is accepted, all of it unless a raw write blocks.  The buffer ends
    // no longer than its size, but for one case: it was already longer (the size was
    // lowered since), and the flush that must come first blocked.
    method Write(b: Bytes) returns (r: Written)
      requires bufferSize > 0
      modifies this`writeBuf, raw
      ensures r.n <= |b| && Stream() == old(Stream()) + b[..r.n]
      ensures r.Wrote? ==> r.n == |b|
      ensures raw.blocks >= old(raw.blocks) + if r.Blocked? then 1 else 0
      ensures r.Blocked? && old(|writeBuf|) <= bufferSize ==> r.n < |b| && |writeBuf| == bufferSize
      ensures |writeBuf| <= bufferSize || (old(|writeBuf|) > bufferSize && r == Blocked(0))
      ensures old(|writeBuf|) + |b| <= bufferSize ==> r.Wrote? && raw.out == old(raw.out)
      ensures old(|writeBuf|) <= bufferSize < old(|writeBuf|) + |b| && raw.blocks == old(raw.blocks) ==> writeBuf == []
    {
      if |writeBuf| > bufferSize {
        var full := FlushUnlocked();
        if full {
          return Blocked(0);
        }
      }
      ghost var accepted := Stream();
      var before := |writeBuf|;
      writeBuf := writeBuf + b;
      var written := |writeBuf| - before;
      assert Stream() == accepted + b;
      if |writeBuf| > bufferSize {
        var blocked := FlushUnlocked();
        if blocked && |writeBuf| > bufferSize {
          var overage := |writeBuf| - bufferSize;
          written := written - overage;
          CutStream(accepted, b, raw.out, writeBuf, bufferSize);
          writeBuf := writeBuf[..bufferSize];
          return Blocked(written);
        }
      }
      r := Wrote(written);
    }

    // tell: the raw position and the buffered bytes.
    method Tell() returns (p: nat)
      ensures p == |Stream()|
    {
      p := |raw.out| + |writeBuf|;
    }

    // A run of writes and flushes: the stream grows by the accepted prefixes in order.
    method Run(writes: seq<Option<Bytes>>) returns (results: seq<Written>)
      requires bufferSize > 0 && |writeBuf| <= bufferSize
      modifies this`writeBuf, raw
      ensures |results| == |writes| && forall i :: 0 <= i < |writes| ==> Fits(writes[i], results[i])
      ensures Stream() == old(Stream()) + AllAccepted(writes, results)
      ensures |writeBuf| <= bufferSize
    {
      hide AllAccepted;
      results := [];
      NoneAccepted(writes[..0], results);
      for i := 0 to |writes|
        invariant |results| == i && forall j :: 0 <= j < i ==> Fits(writes[j], results[j])
        invariant Stream() == old(Stream()) + AllAccepted(writes[..i], results)
        invariant |writeBuf| <= bufferSize
      {
        var r := Wrote(0);
        if writes[i].Some? {
          r := Write(writes[i].value);
        } else {
          var _ := FlushUnlocked();
        }
        NextAccepted(old(Stream()), writes, results, i, r);
        results := results + [r];
      }
      assert writes[..|writes|] == writes;
    }

    // A caller that offers the refused rest again loses nothing and repeats nothing.
    method WriteAll(b: Bytes, attempts: nat) returns (done: nat)
      requires bufferSize > 0
      modifies this`writeBuf, raw
      ensures done <= |b| && Stream() == old(Stream()) + b[..done]
      ensures done < |b| ==> raw.blocks >= old(raw.blocks) + attempts
    {
      done := 0;
      for i := 0 to attempts
        invariant done <= |b| && Stream() == old(Stream()) + b[..done]
        invariant raw.blocks >= old(raw.blocks) && (done < |b| ==> raw.blocks >= old(raw.blocks) + i)
      {
        var rest := b[done..];
        var r := Write(rest);
        PrefixGrows(old(Stream()), b, done, r.n);
        done := done + r.n;
      }
    }
  }

  lemma PrefixGrows(s: Bytes, b: Bytes, done: nat, n: nat)
    requires done + n <= |b|
    ensures s + b[..done] + b[done..][..n] == s + b[..done + n]
  {
    assert b[..done] + b[done..][..n] == b[..done + n];
  }

  // Cutting the buffer back gives up the end of the newly offered bytes, nothing older.
  lemma CutStream(accepted: Bytes, b: Bytes, out: Bytes, buf: Bytes, size: nat)
    requires out + buf == accepted + b && size < |buf| && |out| + size >= |accepted|
    ensures var written := |b| - (|buf| - size);
      0 <= written < |b| && out + buf[..size] == accepted + b[..written]
  {
    var written := |b| - (|buf| - size);
    assert out + buf[..size] == (out + buf)[..|out| + size];
    assert accepted + b[..written] == (accepted + b)[..|accepted| + written];
  }

  // All is accepted unless a raw write blocked.
  predicate Fits(write: Option<Bytes>, r: Written) {
    if write.None? then r.n == 0 else r.n <= |write.value| && (r.Wrote? ==> r.n == |write.value|)
  }

  // The accepted prefixes of a run of writes; a flush is None.
  function AllAccepted(writes: seq<Option<Bytes>>, results: seq<Written>): Bytes
    requires |writes| == |results| && forall i :: 0 <= i < |writes| ==> Fits(writes[i], results[i])
  {
    var n := |writes|;
    if n == 0 then []
    else
      assert Fits(writes[n - 1], results[n - 1]);
      AllAccepted(writes[..n - 1], results[..n - 1])
      + if writes[n - 1].None? then [] else writes[n - 1].value[..results[n - 1].n]
  }

  lemma NoneAccepted(writes: seq<Option<Bytes>>, results: seq<Written>)
    requires |writes| == 0 && |results| == 0
    ensures AllAccepted(writes, results) == []
  {
  }

  lemma NextAccepted(s: Bytes, writes: seq<Option<Bytes>>, results: seq<Written>, i: nat, r: Written)
    requires i < |writes| && |results| == i && (forall j :: 0 <= j < i ==> Fits(writes[j], results[j]))
    requires Fits(writes[i], r)
    ensures s + AllAccepted(writes[..i + 1], results + [r])
         == s + AllAccepted(writes[..i], results) + if writes[i].None? then [] else writes[i].value[..r.n]
  {
    assert writes[..i + 1][..i] == writes[..i] && (results + [r])[..i] == results;
  }
}
