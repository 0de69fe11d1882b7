/** The link layer of osdpprotocol.cpp: buffers, partial reads and writes, deadlines. */
module Protocol {
  import opened Bytes
  import opened Crc16
  import opened Clock
  import opened Frame

  datatype SerialConfig = SerialConfig(
    lead: int,      // leading sync characters
    trail: int,     // trailing sync characters
    timeout: int,   // how long a read may take, in microseconds
    delay: int)     // microseconds from receipt to the next transmission

  /**
    The serial port and the monotonic clock.  A read delivers any non-empty prefix, up to the
    count asked for, of what is still to arrive; a write takes any non-empty prefix of what it
    is given; a poll with nothing arriving lasts exactly its timer.
   */
  class Line {
    var rx: bytes
    var tx: bytes
    var now: nat

    constructor (arriving: bytes, start: nat)
      ensures rx == arriving && tx == [] && now == start
    {
      rx, tx, now := arriving, [], start;
    }

    method Gettime() returns (t: Timespec)
      ensures t == OfNanos(now)
    {
      t := OfNanos(now);
    }

    method Read(count: int) returns (got: bytes)
      requires count > 0 && rx != []
      modifies this`rx
      ensures 0 < |got| <= count && |got| <= |old(rx)|
      ensures got == old(rx)[..|got|] && rx == old(rx)[|got|..]
    {
      var n: nat :| 0 < n <= count && n <= |rx|;
      got, rx := rx[..n], rx[n..];
    }

    method Write(data: bytes) returns (n: nat)
      requires data != []
      modifies this`tx
      ensures 0 < n <= |data| && tx == old(tx) + data[..n]
    {
      n :| 0 < n <= |data|;
      tx := tx + data[..n];
    }

    method Poll(millis: nat)
      modifies this`now
      ensures now == old(now) + millis * MILLION
    {
      now := now + millis * MILLION;
    }

    method SleepUntil(t: Timespec)
      modifies this`now
      ensures now == Max(old(now), Nanos(t))
    {
      now := Max(now, Nanos(t));
    }

    /** Whatever the other end of the line chooses to send, behind what has not been read. */
    method Arrive() returns (arriving: bytes)
      modifies this`rx
      ensures rx == old(rx) + arriving
    {
      arriving := *;
      rx := rx + arriving;
    }

    /** tcflush: whatever has arrived is dropped. */
    method FlushInput()
      modifies this`rx
      ensures rx == []
    {
      rx := [];
    }
  }

  /** A wait that ran out: past the deadline, and not by more than a millisecond of waiting. */
  predicate Expired(start: int, deadline: int, end: int) {
    start <= end && deadline < end <= Max(start, deadline + MILLION)
  }

  class Protocol {
    const line: Line
    const config: SerialConfig
    const inBuffer: array<byte>
    const outBuffer: array<byte>
    var outLen: nat
    var myAddr: byte
    var nextWrite: Timespec
    var deadline: Timespec

    predicate Valid() {
      inBuffer.Length == BUFFER_SIZE && outBuffer.Length == BUFFER_SIZE && inBuffer != outBuffer
    }

    constructor (line: Line, config: SerialConfig)
      ensures Valid() && fresh(inBuffer) && fresh(outBuffer)
      ensures this.line == line && this.config == config && myAddr == 0xFF && outLen == 0
    {
      this.line, this.config := line, config;
      inBuffer := new byte[BUFFER_SIZE](_ => 0);
      outBuffer := new byte[BUFFER_SIZE](_ => 0);
      outLen, myAddr := 0, 0xFF;
      nextWrite, deadline := Timespec(0, 0), Timespec(0, 0);
    }

    /** Read up to count bytes at offset, waiting for them until the deadline. */
    method ReadSome(offset: nat, count: int) returns (r: int)
      requires Valid() && Normal(deadline)
      requires count > 0 && offset + count <= BUFFER_SIZE
      modifies inBuffer, line`rx, line`now
      ensures r == TIMEOUT || offset < r <= offset + count
      ensures r == TIMEOUT ==> old(line.rx) == [] && line.rx == [] && inBuffer[..] == old(inBuffer[..])
      ensures r == TIMEOUT ==> Expired(old(line.now), Nanos(deadline), line.now)
      ensures r != TIMEOUT ==>
                var n := r - offset;
                && n <= |old(line.rx)|
                && line.rx == old(line.rx)[n..]
                && inBuffer[..r] == old(inBuffer[..offset]) + old(line.rx)[..n]
                && inBuffer[r..] == old(inBuffer[..])[r..]
                && line.now == old(line.now)
    {
      while true
        invariant line.rx == old(line.rx) && inBuffer[..] == old(inBuffer[..])
        invariant line.now == old(line.now) ||
                  (line.rx == [] && old(line.now) <= line.now <= Max(old(line.now), Nanos(deadline) + MILLION))
        decreases Max(0, Nanos(deadline) - line.now + 1)
      {
        if line.rx != [] {
          ghost var before := inBuffer[..];
          var got := line.Read(count);
          forall k | 0 <= k < |got| {
            inBuffer[offset + k] := got[k];
          }
          assert inBuffer[..] == before[..offset] + got + before[offset + |got|..];
          return offset + |got|;
        }
        // Nothing is waiting: poll for as long as the deadline leaves.
        var tick := line.Gettime();
        WaitIsFloor(deadline, tick);
        var itime := WaitMillis(deadline, tick);
        if itime < 0 {
          return TIMEOUT;
        }
        if itime > 1000 {
          itime := 1000;
        }
        if itime == 0 {
          itime := 1;
        }
        line.Poll(itime);
      }
    }

    /** Clear the header and read what comes over it. */
    method ReadOverHeader() returns (r: int)
      requires Valid() && Normal(deadline)
      modifies inBuffer, line`rx, line`now
      ensures r == TIMEOUT || 0 < r <= HEADER
      ensures r == TIMEOUT ==>
                old(line.rx) == [] && line.rx == [] && Expired(old(line.now), Nanos(deadline), line.now)
      ensures r != TIMEOUT ==>
                && r <= |old(line.rx)| && inBuffer[..r] == old(line.rx)[..r]
                && line.rx == old(line.rx)[r..] && line.now == old(line.now)
      ensures inBuffer[HEADER..] == old(inBuffer[HEADER..])
    {
      forall k | 0 <= k < HEADER {
        inBuffer[k] := 0;
      }
      assert inBuffer[HEADER..] == old(inBuffer[HEADER..]);
      ghost var cleared := inBuffer[..];
      assert cleared[HEADER..] == old(inBuffer[HEADER..]);
      r := ReadSome(0, HEADER);
      if r != TIMEOUT {
        assert inBuffer[HEADER..] == inBuffer[r..][HEADER-r..] == cleared[r..][HEADER-r..] == cleared[HEADER..];
      } else {
        assert inBuffer[HEADER..] == inBuffer[..][HEADER..] == cleared[HEADER..];
      }
    }

    /** Skip to an introducer and read the common header. */
    method ReadSoh() returns (offset: int)
      requires Valid() && Normal(deadline)
      modifies inBuffer, line`rx, line`now
      ensures var s := old(line.rx); HeaderRead(s[FirstSoh(s)..], offset, old(line.now))
      ensures inBuffer[HEADER..] == old(inBuffer[HEADER..])
    {
      ghost var s := line.rx;
      ghost var skipped: bytes := [];
      while true
        invariant s == skipped + line.rx && SOH !in skipped
        invariant line.now == old(line.now)
        invariant inBuffer[HEADER..] == old(inBuffer[HEADER..])
        decreases |line.rx|
      {
        ghost var rest := line.rx;
        offset := ReadOverHeader();
        if offset < 0 {
          FirstSohSkips(skipped, rest);
          assert s[FirstSoh(s)..] == [];
          return;
        }
        var soh := FirstSoh(inBuffer[..offset]);
        if soh < offset {
          FirstOfPrefix(rest, offset);
          FirstSohSkips(skipped, rest);
          assert s[FirstSoh(s)..] == rest[soh..];
          offset := ReadRestOfHeader(soh, offset, rest);
          return;
        }
        // No introducer: discard everything read.
        NoneInPrefix(rest, offset);
        skipped := skipped + rest[..offset];
      }
    }

    /** The header of a message starting at t was read, or the stream gave out before its end. */
    ghost predicate HeaderRead(t: bytes, offset: int, start: nat)
      requires Valid()
      reads this, inBuffer, line
    {
      if |t| < HEADER then
        && offset == TIMEOUT && line.rx == []
        && inBuffer[..|t|] == t
        && Expired(start, Nanos(deadline), line.now)
      else
        && offset == HEADER && line.rx == t[HEADER..]
        && inBuffer[..HEADER] == t[..HEADER]
        && line.now == start
    }

    /** Move the introducer to the front and read on until the header is complete. */
    method ReadRestOfHeader(soh: nat, filled: nat, ghost rest: bytes) returns (offset: int)
      requires Valid() && Normal(deadline)
      requires soh < filled <= HEADER && filled <= |rest|
      requires inBuffer[..filled] == rest[..filled] && line.rx == rest[filled..]
      modifies inBuffer, line`rx, line`now
      ensures HeaderRead(rest[soh..], offset, old(line.now))
      ensures inBuffer[HEADER..] == old(inBuffer[HEADER..])
    {
      offset := filled;
      ghost var t := rest[soh..];
      if soh > 0 {
        var size := offset - soh;
        forall k | 0 <= k < size {
          inBuffer[k] := inBuffer[k + soh];
        }
        offset := size;
      }
      assert forall k :: 0 <= k < offset ==> inBuffer[k] == rest[..filled][soh + k];
      assert inBuffer[..offset] == t[..offset];
      while offset < HEADER
        invariant 0 < offset <= HEADER && offset <= |t|
        invariant inBuffer[..offset] == t[..offset] && line.rx == t[offset..]
        invariant line.now == old(line.now)
        invariant inBuffer[HEADER..] == old(inBuffer[HEADER..])
        decreases HEADER - offset
      {
        var r := ReadSome(offset, HEADER - offset);
        if r < 0 {
          assert |t| == offset;
          return r;
        }
        assert inBuffer[..r] == t[..r];
        offset := r;
      }
    }

    /** The header is in; read the rest of the message it announces. */
    method ReadEof(start: nat, ghost t: bytes) returns (offset: int)
      requires Valid() && Normal(deadline)
      requires start == HEADER <= |t|
      requires inBuffer[..HEADER] == t[..HEADER] && line.rx == t[HEADER..]
      modifies inBuffer, line`rx, line`now
      ensures var total := LengthOf(t[2], t[3]);
              var n := if offset == OVERFLOW then HEADER else Min(total, |t|);
              && (offset == OVERFLOW <==> total <= 5 || total > BUFFER_SIZE - HEADER)
              && (offset == TIMEOUT <==> offset != OVERFLOW && |t| < total)
              && (offset != OVERFLOW && offset != TIMEOUT ==> offset == total)
              && HEADER <= n <= BUFFER_SIZE && inBuffer[..n] == t[..n] && line.rx == t[n..]
              && inBuffer[n..] == old(inBuffer[..])[n..]
      ensures offset == TIMEOUT ==> Expired(old(line.now), Nanos(deadline), line.now)
      ensures offset != TIMEOUT ==> line.now == old(line.now)
    {
      offset := start;
      HeaderBytes(t);
      var total := LengthOf(inBuffer[2], inBuffer[3]);
      if total <= 5 || total > BUFFER_SIZE - offset {
        return OVERFLOW;
      }
      ghost var before := inBuffer[..];
      while true
        invariant HEADER <= offset < total && offset <= |t|
        invariant inBuffer[..offset] == t[..offset] && line.rx == t[offset..]
        invariant inBuffer[offset..] == before[offset..]
        invariant line.now == old(line.now)
        decreases total - offset
      {
        ghost var now := inBuffer[..];
        var r := ReadSome(offset, total - offset);
        if r < 0 {
          assert t == t[..offset];
          return r;
        }
        assert inBuffer[..r] == t[..r];
        assert inBuffer[r..] == now[offset..][r-offset..] == before[r..];
        offset := r;
        if offset >= total {
          return;
        }
      }
    }

    /** The short checksum over the first count bytes of the buffer, carried on from a sum. */
    method SumBuffer(start: nat, count: int) returns (sum: nat)
      requires Valid() && count <= BUFFER_SIZE && start < 256
      ensures sum == (start + Sum(inBuffer[..Max(count, 0)])) % 256
    {
      sum := start;
      var i := 0;
      while i < count
        invariant 0 <= i <= Max(count, 0) && sum == (start + Sum(inBuffer[..i])) % 256
      {
        assert inBuffer[..i+1][..i] == inBuffer[..i];
        PlusOn(start, Sum(inBuffer[..i]), inBuffer[i]);
        sum := Plus(sum, inBuffer[i]);
        i := i + 1;
      }
    }

    /** Fold the stretch just read into whichever check the message uses. */
    method DigestBuffer(ghost before: bytes, offset: nat, crc0: bv16, sum0: nat, withCrc: bool)
      returns (crc: bv16, sum: nat)
      requires Valid() && offset <= BUFFER_SIZE
      requires if withCrc then crc0 == Add(PRESET, before) else sum0 == Sum(before)
      ensures if withCrc then crc == Add(PRESET, before + inBuffer[..offset])
              else sum == Sum(before + inBuffer[..offset])
    {
      crc, sum := crc0, sum0;
      if withCrc {
        crc := AddBytes(crc, inBuffer, 0, offset);
        AddConcat(PRESET, before, inBuffer[..offset]);
        assert inBuffer[0..offset] == inBuffer[..offset];
      } else {
        sum := SumBuffer(sum, offset);
        SumConcat(before, inBuffer[..offset]);
      }
    }

    /** Take the stream through the buffer up to total bytes, keeping only their CRC or sum. */
    method DigestPast(ghost t: bytes, total: int, crc0: bv16, sum0: nat, withCrc: bool)
      returns (r: int, crc: bv16, sum: nat)
      requires Valid() && Normal(deadline)
      requires HEADER <= |t| && line.rx == t[HEADER..]
      requires if withCrc then crc0 == Add(PRESET, t[..HEADER]) else sum0 == Sum(t[..HEADER])
      modifies inBuffer, line`rx, line`now
      ensures var n := Max(total, HEADER);
              if |t| < n then
                && r == TIMEOUT && line.rx == []
                && Expired(old(line.now), Nanos(deadline), line.now)
              else
                && r == n && line.rx == t[n..] && line.now == old(line.now)
                && if withCrc then crc == Add(PRESET, t[..n]) else sum == Sum(t[..n])
    {
      hide Add, Step, Sum;
      crc, sum := crc0, sum0;
      var size := HEADER;
      while size < total
        invariant HEADER <= size <= Max(total, HEADER) && size <= |t|
        invariant line.rx == t[size..] && line.now == old(line.now)
        invariant if withCrc then crc == Add(PRESET, t[..size]) else sum == Sum(t[..size])
      {
        var count := total - size;
        if count > BUFFER_SIZE {
          count := BUFFER_SIZE;
        }
        var offset := ReadSome(0, count);
        if offset < 0 {
          return offset, crc, sum;
        }
        assert t[..size] + inBuffer[..offset] == t[..size + offset];
        crc, sum := DigestBuffer(t[..size], offset, crc, sum, withCrc);
        size := size + offset;
      }
      r := size;
    }

    /** Read the two bytes after the first n and compare them with the CRC of those n. */
    method MatchCrc(ghost t: bytes, ghost n: nat, crc: bv16) returns (r: int)
      requires Valid() && Normal(deadline) && n <= |t| && line.rx == t[n..]
      modifies inBuffer, line`rx, line`now
      ensures if |t| < n + 2 then
                r == TIMEOUT && line.rx == [] && Expired(old(line.now), Nanos(deadline), line.now)
              else
                && r == (if Trailer(t[n], t[n+1]) == crc then FLYBY else BADCHECK)
                && line.rx == t[n+2..] && line.now == old(line.now)
    {
      var offset := 0;
      while offset < 2
        invariant 0 <= offset <= 2 && n + offset <= |t|
        invariant inBuffer[..offset] == t[n..n+offset] && line.rx == t[n+offset..]
        invariant line.now == old(line.now)
      {
        var more := ReadSome(offset, 2 - offset);
        if more < 0 {
          return more;
        }
        assert inBuffer[..more] == t[n..n+more];
        offset := more;
      }
      assert inBuffer[0] == inBuffer[..2][0] == t[n] && inBuffer[1] == inBuffer[..2][1] == t[n+1];
      r := if crc != Trailer(inBuffer[0], inBuffer[1]) then BADCHECK else FLYBY;
    }

    /** The header in the buffer is that of the stream. */
    lemma HeaderBytes(t: bytes)
      requires Valid() && HEADER <= |t| && inBuffer[..HEADER] == t[..HEADER]
      ensures forall k :: 0 <= k < HEADER ==> inBuffer[k] == t[k]
    {
      forall k | 0 <= k < HEADER
        ensures inBuffer[k] == t[k]
      {
        assert inBuffer[k] == inBuffer[..HEADER][k];
      }
    }

    method FlyByCrc(total: int, ghost t: bytes) returns (r: int)
      requires Valid() && Normal(deadline) && HEADER <= |t|
      requires inBuffer[..HEADER] == t[..HEADER] && line.rx == t[HEADER..]
      modifies inBuffer, line`rx, line`now
      ensures var n := Max(total - 2, HEADER);
              if |t| < n + 2 then
                r == TIMEOUT && line.rx == [] && Expired(old(line.now), Nanos(deadline), line.now)
              else
                && r == (if Trailer(t[n], t[n+1]) == Add(PRESET, t[..n]) then FLYBY else BADCHECK)
                && line.rx == t[n+2..] && line.now == old(line.now)
    {
      var crc := AddBytes(PRESET, inBuffer, 0, HEADER);
      assert inBuffer[0..HEADER] == inBuffer[..HEADER];
      var size, sum;
      size, crc, sum := DigestPast(t, total - 2, crc, 0, true);
      if size < 0 {
        return size;
      }
      r := MatchCrc(t, size, crc);
    }

    method FlyBySum(total: int, ghost t: bytes) returns (r: int)
      requires Valid() && Normal(deadline) && HEADER <= |t|
      requires inBuffer[..HEADER] == t[..HEADER] && line.rx == t[HEADER..]
      modifies inBuffer, line`rx, line`now
      ensures var n := Max(total - 1, HEADER);
              if |t| < n + 1 then
                r == TIMEOUT && line.rx == [] && Expired(old(line.now), Nanos(deadline), line.now)
              else
                && r == (if Value(t[n]) == Sum(t[..n]) then FLYBY else BADCHECK)
                && line.rx == t[n+1..] && line.now == old(line.now)
    {
      var sum := SumBuffer(0, HEADER);
      var size, crc;
      size, crc, sum := DigestPast(t, total - 1, PRESET, sum, false);
      if size < 0 {
        return size;
      }
      r := ReadSome(0, 1);
      if r < 0 {
        return;
      }
      assert inBuffer[0] == inBuffer[..1][0] == t[size];
      r := if Value(inBuffer[0]) != sum then BADCHECK else FLYBY;
    }

    /** Let a message for another occupant pass, checking it without keeping it. */
    method FlyBy(ghost t: bytes) returns (r: int)
      requires Valid() && Normal(deadline) && HEADER <= |t|
      requires inBuffer[..HEADER] == t[..HEADER] && line.rx == t[HEADER..]
      modifies inBuffer, line`rx, line`now
      ensures r == LetBy(t).code && line.rx == t[LetBy(t).consumed..]
      ensures r == TIMEOUT ==> Expired(old(line.now), Nanos(deadline), line.now)
      ensures r != TIMEOUT ==> line.now == old(line.now)
    {
      hide Trailer, Add, Step, LengthOf, UsesCrc, Sum;
      HeaderBytes(t);
      var total := LengthOf(inBuffer[2], inBuffer[3]);
      if UsesCrc(inBuffer[4]) {
        r := FlyByCrc(total, t);
      } else {
        r := FlyBySum(total, t);
      }
    }

    /** The integrity check of the size bytes of a whole message in the buffer. */
    method CheckBuffer(size: nat) returns (r: int)
      requires Valid() && 6 <= size <= BUFFER_SIZE
      ensures r == Check(inBuffer[..size])
    {
      hide Add, Step, Trailer, UsesCrc, Sum, Value;
      if UsesCrc(inBuffer[4]) {
        var mycrc := AddBytes(PRESET, inBuffer, 0, size - 2);
        var msgcrc := Trailer(inBuffer[size-2], inBuffer[size-1]);
        assert inBuffer[0..size-2] == inBuffer[..size][..size-2];
        r := if msgcrc != mycrc then BADCHECK else size - 2;
      } else {
        var csum := SumBuffer(0, size - 1);
        assert inBuffer[..size-1] == inBuffer[..size][..size-1];
        r := if csum != Value(inBuffer[size-1]) then BADCHECK else size - 1;
      }
    }

    /** Note when the next transmission may start: the configured delay after now. */
    method ReadStamp()
      modifies this`nextWrite
      ensures Nanos(nextWrite) == line.now + config.delay * 1000
      ensures 0 <= config.delay <= 1_000_000 ==> Normal(nextWrite)
    {
      nextWrite := line.Gettime();
      nextWrite := PlusCarry(nextWrite, 0, config.delay * 1000);
    }

    method SetDeadline()
      requires config.timeout >= 0
      modifies this`deadline
      ensures Nanos(deadline) == line.now + config.timeout * 1000 && Normal(deadline)
    {
      deadline := line.Gettime();
      var quot, rem := config.timeout / 1_000_000, config.timeout % 1_000_000;
      deadline := PlusCarry(deadline, quot, rem * 1000);
    }

    /**
      Read one message: the result, the part of the buffer it fills and the part of the stream
      it uses are a function of the stream alone, however the reads are split.
     */
    method ReadCook() returns (size: int)
      requires Valid() && config.timeout >= 0
      modifies this`deadline, this`nextWrite, inBuffer, line`rx, line`now
      ensures var o := Receive(myAddr, old(line.rx));
              && size == o.code
              && line.rx == old(line.rx)[o.consumed..]
              && inBuffer[..|o.frame|] == o.frame
      ensures Nanos(deadline) == old(line.now) + config.timeout * 1000 && Normal(deadline)
      ensures size == TIMEOUT ==> Nanos(deadline) < line.now <= Nanos(deadline) + MILLION
      ensures size != TIMEOUT ==> line.now == old(line.now)
      ensures Nanos(nextWrite) == line.now + config.delay * 1000
    {
      SetDeadline();
      size := ReadBody();
      ReadStamp();
    }

    method ReadBody() returns (size: int)
      requires Valid() && Normal(deadline)
      modifies inBuffer, line`rx, line`now
      ensures var o := Receive(myAddr, old(line.rx));
              && size == o.code
              && line.rx == old(line.rx)[o.consumed..]
              && inBuffer[..|o.frame|] == o.frame
      ensures size == TIMEOUT ==> Expired(old(line.now), Nanos(deadline), line.now)
      ensures size != TIMEOUT ==> line.now == old(line.now)
    {
      hide Trailer, Add, Step, LengthOf, UsesCrc, Sum, Check;
      ghost var s := line.rx;
      ghost var t := s[FirstSoh(s)..];
      size := ReadSoh();
      if size < 0 {
        return;
      }
      HeaderBytes(t);
      if myAddr != 0xFF { // a master sees everything
        var addr := inBuffer[1];
        if addr != myAddr && addr != 0x7D && addr != 0x7F {
          size := FlyBy(t);
          return;
        }
      }
      size := ReadEof(size, t);
      if size < 0 {
        return;
      }
      size := CheckBuffer(size);
    }

    /** Wait until the next transmission may start; take the delay from now if none is known. */
    method DelayWait()
      modifies this`nextWrite, line`now
      ensures if old(nextWrite) == Timespec(0, 0) then Nanos(nextWrite) == old(line.now) + config.delay * 1000
              else nextWrite == old(nextWrite)
      ensures line.now == Max(old(line.now), Nanos(nextWrite))
    {
      if nextWrite.sec == 0 && nextWrite.nsec == 0 {
        ReadStamp();
      }
      line.SleepUntil(nextWrite);
    }

    /**
      Send size bytes in as many writes as the port takes.  They are taken from the output buffer,
      so they are those of the buffer named exactly when the two begin alike.
     */
    method Write(buffer: array<byte>, size: int)
      requires Valid() && size <= BUFFER_SIZE && size <= buffer.Length
      modifies line`tx
      ensures line.tx == old(line.tx) + outBuffer[..Max(size, 0)]
      ensures line.tx == old(line.tx) + buffer[..Max(size, 0)] <==> buffer[..Max(size, 0)] == outBuffer[..Max(size, 0)]
    {
      ghost var before := line.tx;
      var offset := 0;
      while offset < size
        invariant 0 <= offset <= Max(size, 0)
        invariant line.tx == before + outBuffer[..offset]
      {
        var n := line.Write(outBuffer[offset..size]);
        assert outBuffer[..offset] + outBuffer[offset..size][..n] == outBuffer[..offset + n];
        offset := offset + n;
      }
      SuffixesAgree(before, outBuffer[..offset], buffer[..offset]);
    }

    lemma SuffixesAgree(s: bytes, t: bytes, u: bytes)
      ensures s + t == s + u <==> t == u
    {
      assert (s + t)[|s|..] == t && (s + u)[|s|..] == u;
    }

    /** Append n sync characters to the message being built. */
    method PutPad(at: nat, n: int) returns (out: nat)
      requires Valid() && at + Max(n, 0) <= BUFFER_SIZE
      modifies outBuffer
      ensures out == at + Max(n, 0) && outBuffer[..out] == old(outBuffer[..at]) + Pad(n)
    {
      out := at;
      var i := 0;
      while i < n
        invariant 0 <= i <= Max(n, 0) && out == at + i
        invariant outBuffer[..out] == old(outBuffer[..at]) + Pad(i)
      {
        outBuffer[out] := MARK;
        out := out + 1;
        i := i + 1;
        assert Pad(i) == Pad(i - 1) + [MARK];
      }
    }

    /** Append some bytes to the message being built. */
    method Put(at: nat, data: bytes) returns (out: nat)
      requires Valid() && at + |data| <= BUFFER_SIZE
      modifies outBuffer
      ensures out == at + |data| && outBuffer[..out] == old(outBuffer[..at]) + data
    {
      forall k | 0 <= k < |data| {
        outBuffer[at + k] := data[k];
      }
      out := at + |data|;
    }

    method PutHeader(at: nat, addr: byte, seqno: byte, fullsize: nat) returns (out: nat)
      requires Valid() && at + HEADER <= BUFFER_SIZE
      modifies outBuffer
      ensures out == at + HEADER && outBuffer[..out] == old(outBuffer[..at]) + Header(addr, seqno, fullsize)
    {
      hide LowByte, HighByte;
      out := Put(at, [SOH, addr & 0x7F, LowByte(fullsize), HighByte(fullsize), seqno | CTRL_CRC]);
    }

    /** Build a frame between its pads in the output buffer. */
    method Build(addr: byte, seqno: byte, payload: bytes) returns (out: nat)
      requires Valid()
      requires Max(config.lead, 0) + |payload| + 7 + Max(config.trail, 0) <= BUFFER_SIZE
      modifies outBuffer
      ensures out == Max(config.lead, 0) + |payload| + 7 + Max(config.trail, 0)
      ensures outBuffer[..out] == Padded(config.lead, config.trail, Encode(addr, seqno, payload))
    {
      hide Add, CrcBytes, Header;
      var fullsize := |payload| + 7;
      out := PutPad(0, config.lead);
      assert outBuffer[..out] == Pad(config.lead);
      var postpad := out;
      ghost var head := Covered(addr, seqno, payload);
      out := PutHeader(out, addr, seqno, fullsize);
      out := Put(out, payload);
      assert outBuffer[..out] == Pad(config.lead) + head;
      var crc := AddBytes(PRESET, outBuffer, postpad, out - postpad);
      assert outBuffer[postpad..out] == outBuffer[..out][postpad..] == head;
      out := Put(out, CrcBytes(crc));
      assert outBuffer[..out] == Pad(config.lead) + Encode(addr, seqno, payload);
      out := PutPad(out, config.trail);
    }

    /** Frame a payload, wait for the bus, and send it. */
    method WriteCook(addr: byte, seqno: byte, payload: bytes)
      requires Valid()
      requires Max(config.lead, 0) + |payload| + 7 + Max(config.trail, 0) <= BUFFER_SIZE
      modifies this`outLen, this`nextWrite, outBuffer, line`tx, line`now
      ensures line.tx == old(line.tx) + Padded(config.lead, config.trail, Encode(addr, seqno, payload))
      ensures outLen == Max(config.lead, 0) + |payload| + 7 + Max(config.trail, 0)
      ensures if old(nextWrite) == Timespec(0, 0) then Nanos(nextWrite) == old(line.now) + config.delay * 1000
              else nextWrite == old(nextWrite)
      ensures line.now == Max(old(line.now), Nanos(nextWrite))
    {
      var out := Build(addr, seqno, payload);
      DelayWait();
      outLen := out;
      Write(outBuffer, outLen);
    }
  }
}
