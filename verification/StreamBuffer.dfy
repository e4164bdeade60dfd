/** Poco/BufferedBidirectionalStreamBuf.h, with the members of std::basic_streambuf that call into it
    (sbumpc, sungetc, sputc). The devices are not part of this model: what a read delivers and how
    much a write accepts are parameters. Pointers are offsets into their buffer. */
module StreamBuffers {
  import opened Outcomes

  /** The read buffer after the move at the start of a refill: the last `putback` characters before
      gptr end up right below position 4, as they were before the move. */
  ghost function Moved(buf: seq<char>, gptr: nat, putback: nat): (r: seq<char>)
    requires putback <= 4 <= |buf| && putback <= gptr <= |buf|
    ensures |r| == |buf|
  {
    seq(|buf|, i requires 0 <= i < |buf| =>
      if 4 - putback <= i < 4 then buf[gptr - 4 + i] else buf[i])
  }

  function PutbackSize(eback: nat, gptr: nat): (n: nat)
    requires eback <= gptr
    ensures n <= 4 && n <= gptr - eback
  {
    if gptr - eback > 4 then 4 else gptr - eback
  }

  /** When the device reports the end of input the move has been made but the pointers stay. The
      characters that can be put back survive that, whatever they are, exactly when none of them
      stands below position 4 or the move has nowhere to go. */
  lemma {:induction false} EndKeepsPutback(size: nat, eback: nat, gptr: nat)
    requires 4 <= gptr <= size && eback <= gptr
    ensures (forall buf: seq<char> :: |buf| == size ==>
               Moved(buf, gptr, PutbackSize(eback, gptr))[eback..gptr] == buf[eback..gptr])
            <==> 4 <= eback || gptr == 4
  {
    if 4 <= eback || gptr == 4 {
      forall buf: seq<char> | |buf| == size
        ensures Moved(buf, gptr, PutbackSize(eback, gptr))[eback..gptr] == buf[eback..gptr]
      {
        var m := Moved(buf, gptr, PutbackSize(eback, gptr));
        assert forall i :: eback <= i < gptr ==> m[i] == buf[i];
      }
    } else {
      var buf: seq<char> := seq(size, i => if i == 3 then 'a' else 'b');
      var m := Moved(buf, gptr, PutbackSize(eback, gptr));
      assert m[3] == buf[gptr - 1] == 'b';
      assert m[eback..gptr][3 - eback] != buf[eback..gptr][3 - eback];
    }
  }

  /** The lowest position before gptr that surely holds a character returned earlier. */
  ghost function Lowest(eback: nat, ended: bool): nat {
    if ended && eback < 4 then 4 else eback
  }

  /** What the get area means: all input delivered is what was returned followed by the unread
      characters, and the characters before gptr are the last ones returned. */
  ghost predicate GetArea(buf: seq<char>, eback: nat, gptr: nat, egptr: nat,
                          delivered: seq<char>, returned: seq<char>, ended: bool)
  {
    && eback <= gptr <= egptr <= |buf| && 4 <= egptr && Lowest(eback, ended) <= gptr
    && delivered == returned + buf[gptr..egptr]
    && gptr - Lowest(eback, ended) <= |returned|
    && (forall i :: Lowest(eback, ended) <= i < gptr ==> buf[i] == returned[|returned| - gptr + i])
  }

  lemma RefillKeeps(buf: seq<char>, buf': seq<char>, eback: nat, gptr: nat, egptr: nat,
                    delivered: seq<char>, returned: seq<char>, ended: bool, chunk: seq<char>)
    requires GetArea(buf, eback, gptr, egptr, delivered, returned, ended) && gptr == egptr
    requires 4 + |chunk| <= |buf'| == |buf|
    requires buf'[..4] == Moved(buf, gptr, PutbackSize(eback, gptr))[..4] && buf'[4..4 + |chunk|] == chunk
    ensures GetArea(buf', 4 - PutbackSize(eback, gptr), 4, 4 + |chunk|, delivered + chunk, returned, ended)
  {
    var p := PutbackSize(eback, gptr);
    var low := Lowest(4 - p, ended);
    forall i | low <= i < 4 ensures buf'[i] == returned[|returned| - 4 + i] {
      assert buf'[i] == buf'[..4][i] == buf[gptr - 4 + i];
    }
  }

  lemma EndKeeps(buf: seq<char>, eback: nat, gptr: nat, egptr: nat,
                 delivered: seq<char>, returned: seq<char>, ended: bool)
    requires GetArea(buf, eback, gptr, egptr, delivered, returned, ended) && gptr == egptr
    ensures GetArea(Moved(buf, gptr, PutbackSize(eback, gptr)), eback, gptr, egptr, delivered, returned, true)
  {
  }

  lemma GetKeeps(buf: seq<char>, eback: nat, gptr: nat, egptr: nat,
                 delivered: seq<char>, returned: seq<char>, ended: bool)
    requires GetArea(buf, eback, gptr, egptr, delivered, returned, ended) && gptr < egptr
    ensures GetArea(buf, eback, gptr + 1, egptr, delivered, returned + [buf[gptr]], ended)
  {
    assert buf[gptr..egptr] == [buf[gptr]] + buf[gptr + 1..egptr];
  }

  ghost function DropLast(s: seq<char>): seq<char> {
    if s == [] then [] else s[..|s| - 1]
  }

  lemma UngetKeeps(buf: seq<char>, eback: nat, gptr: nat, egptr: nat,
                   delivered: seq<char>, returned: seq<char>, ended: bool)
    requires GetArea(buf, eback, gptr, egptr, delivered, returned, ended) && Lowest(eback, ended) < gptr
    ensures |returned| > 0 && buf[gptr - 1] == returned[|returned| - 1]
    ensures GetArea(buf, eback, gptr - 1, egptr, delivered, DropLast(returned), ended)
  {
    var n := |returned| - 1;
    assert buf[gptr - 1..egptr] == [buf[gptr - 1]] + buf[gptr..egptr];
    assert returned == returned[..n] + [returned[n]];
  }

  lemma PutBack(buf: seq<char>, gptr: nat, egptr: nat, returned: seq<char>, chunk: seq<char>, k: nat)
    requires k <= |returned| && gptr + k <= egptr <= |buf|
    requires returned + chunk == returned[..|returned| - k] + buf[gptr..egptr]
    ensures buf[gptr..gptr + k] == returned[|returned| - k..]
  {
    var n := |returned| - k;
    assert (returned + chunk)[n..] == returned[n..] + chunk;
    assert (returned[..n] + buf[gptr..egptr])[n..] == buf[gptr..egptr];
    assert buf[gptr..gptr + k] == buf[gptr..egptr][..k];
  }

  lemma UngetKeepsIf(safe: bool, buf: seq<char>, eback: nat, gptr: nat, egptr: nat,
                     delivered: seq<char>, returned: seq<char>, ended: bool)
    requires safe ==> GetArea(buf, eback, gptr, egptr, delivered, returned, ended)
    ensures safe && Lowest(eback, ended) < gptr ==>
              && |returned| > 0 && gptr <= |buf| && buf[gptr - 1] == returned[|returned| - 1]
              && GetArea(buf, eback, gptr - 1, egptr, delivered, DropLast(returned), ended)
  {
    if safe && Lowest(eback, ended) < gptr {
      UngetKeeps(buf, eback, gptr, egptr, delivered, returned, ended);
    }
  }

  class StreamBuf {
    const bufsize: nat
    const readBuffer: array<char>
    const writeBuffer: array<char>
    var canRead: bool
    var canWrite: bool
    var eback: nat
    var gptr: nat
    var egptr: nat
    var pptr: nat
    var epptr: nat

    /** All input the device has delivered, and the part of it the reader has taken. */
    ghost var delivered: seq<char>
    ghost var returned: seq<char>
    /** True once the device has reported the end of input. */
    ghost var ended: bool
    /** True until the reader steps back over a character that the end of input may have overwritten. */
    ghost var safe: bool
    /** All characters put, and all characters the device has accepted. */
    ghost var put: seq<char>
    ghost var written: seq<char>
    /** True as long as the device has accepted every write in full. */
    ghost var intact: bool

    ghost predicate Valid()
      reads this, readBuffer, writeBuffer
    {
      ValidWith(readBuffer[..])
    }

    /** Valid if these were the contents of the read buffer. */
    ghost predicate ValidWith(contents: seq<char>)
      reads this, writeBuffer
    {
      && 4 < bufsize && readBuffer.Length == bufsize && writeBuffer.Length == bufsize && readBuffer != writeBuffer
      && |contents| == bufsize && eback <= gptr <= egptr <= bufsize && 4 <= egptr
      && egptr - eback <= |delivered| && (egptr - eback < 4 ==> egptr - eback == |delivered|)
      && (safe ==> GetArea(contents, eback, gptr, egptr, delivered, returned, ended))
      && epptr == bufsize - 1 && pptr <= bufsize
      && (intact ==> pptr <= epptr && put == written + writeBuffer[..pptr])
    }

    constructor (bufferSize: nat, canRead: bool, canWrite: bool)
      requires 4 < bufferSize
      ensures Valid() && bufsize == bufferSize && this.canRead == canRead && this.canWrite == canWrite
      ensures fresh(readBuffer) && fresh(writeBuffer)
      ensures delivered == returned == put == written == [] && intact && safe && !ended && gptr == egptr && pptr == 0
    {
      bufsize := bufferSize;
      readBuffer := new char[bufferSize](_ => '\0');
      writeBuffer := new char[bufferSize](_ => '\0');
      this.canRead, this.canWrite := canRead, canWrite;
      delivered, returned, put, written := [], [], [], [];
      intact, safe, ended := true, true, false;
      eback, gptr, egptr := 4, 4, 4;
      pptr, epptr := 0, bufferSize - 1;
    }

    // -------------------------------------------------------------- reading

    /** Makes a character available; chunk is what the device delivers if it is asked, empty for a
        result of zero or less. Nothing is lost or reordered, and after a refill the up to four
        characters before gptr are the last ones returned (GetArea, with ended false). At the end of
        input the pointers stay, but the characters to be put back have been moved. */
    method Underflow(chunk: seq<char>) returns (c: Option<char>)
      requires Valid() && |chunk| <= bufsize - 4
      modifies readBuffer, `eback, `gptr, `egptr, `delivered, `ended
      ensures Valid()
      ensures var asked := canRead && old(gptr) == old(egptr);
              && delivered == (if asked then old(delivered) + chunk else old(delivered))
              && ended == (old(ended) || (asked && chunk == []))
              && (asked && chunk != [] ==>
                    (eback, gptr, egptr) == (4 - PutbackSize(old(eback), old(gptr)), 4, 4 + |chunk|))
              && (!asked || chunk == [] ==> (eback, gptr, egptr) == old((eback, gptr, egptr)))
              && (!asked ==> readBuffer[..] == old(readBuffer[..]))
              && (asked && chunk == [] ==> readBuffer[..] == Moved(old(readBuffer[..]), gptr, PutbackSize(eback, gptr)))
      ensures canRead && old(gptr) == old(egptr) && chunk != [] ==>
                && 4 - eback == (if old(gptr) - old(eback) < 4 then old(gptr) - old(eback) else 4)
                && 4 - eback == (if |old(delivered)| < 4 then |old(delivered)| else 4)
      ensures c.Some? <==> canRead && gptr < egptr
      ensures c.Some? ==> c.value == readBuffer[gptr]
      ensures safe ==> delivered == returned + readBuffer[..][gptr..egptr]
    {
      if !canRead {
        return None;
      }
      if gptr < egptr {
        return Some(readBuffer[gptr]);
      }
      var n := Refill(chunk);
      if n == 0 {
        return None;
      }
      c := Some(readBuffer[gptr]);
    }

    /** The part of underflow that asks the device. */
    method Refill(chunk: seq<char>) returns (n: nat)
      requires Valid() && |chunk| <= bufsize - 4 && gptr == egptr
      modifies readBuffer, `eback, `gptr, `egptr, `delivered, `ended
      ensures Valid() && n == |chunk| && delivered == old(delivered) + chunk
      ensures ended == (old(ended) || chunk == [])
      ensures if chunk == [] then (eback, gptr, egptr) == old((eback, gptr, egptr))
              else (eback, gptr, egptr) == (4 - PutbackSize(old(eback), old(gptr)), 4, 4 + n)
      ensures chunk == [] ==> readBuffer[..] == Moved(old(readBuffer[..]), gptr, PutbackSize(eback, gptr))
    {
      var putback := gptr - eback;
      if putback > 4 {
        putback := 4;
      }
      ghost var before := readBuffer[..];
      Move(putback);
      n := |chunk|;
      if n == 0 {
        ReportEnd(before);
        return;
      }
      Accept(chunk, before, putback);
    }

    /** The pointers stay as they are. */
    ghost method ReportEnd(before: seq<char>)
      requires ValidWith(before) && gptr == egptr
      requires readBuffer[..] == Moved(before, gptr, PutbackSize(eback, gptr))
      modifies `ended
      ensures Valid() && ended
    {
      if safe {
        EndKeeps(before, eback, gptr, egptr, delivered, returned, ended);
      }
      ended := true;
    }

    method Accept(chunk: seq<char>, ghost before: seq<char>, putback: nat)
      requires ValidWith(before) && gptr == egptr && |chunk| <= bufsize - 4
      requires putback == PutbackSize(eback, gptr) && readBuffer[..] == Moved(before, gptr, putback)
      modifies readBuffer, `eback, `gptr, `egptr, `delivered
      ensures Valid() && delivered == old(delivered) + chunk
      ensures (eback, gptr, egptr) == (4 - putback, 4, 4 + |chunk|)
    {
      ReadFromDevice(chunk);
      if safe {
        RefillKeeps(before, readBuffer[..], eback, gptr, egptr, delivered, returned, ended, chunk);
      }
      SetGetArea(4 - putback, 4, 4 + |chunk|);
      delivered := delivered + chunk;
    }

    /** setg */
    method SetGetArea(beginning: nat, next: nat, end: nat)
      modifies `eback, `gptr, `egptr
      ensures (eback, gptr, egptr) == (beginning, next, end)
    {
      eback, gptr, egptr := beginning, next, end;
    }

    /** The overlapping move of the characters to be put back. */
    method Move(putback: nat)
      requires readBuffer.Length == bufsize && 4 < bufsize
      requires putback <= 4 && putback <= gptr <= bufsize
      modifies readBuffer
      ensures readBuffer[..] == Moved(old(readBuffer[..]), gptr, putback)
    {
      forall i | 0 <= i < putback {
        readBuffer[4 - putback + i] := readBuffer[gptr - putback + i];
      }
    }

    /** The device stores what it delivers from position 4 on. */
    method ReadFromDevice(chunk: seq<char>)
      requires readBuffer.Length == bufsize && 4 + |chunk| <= bufsize
      modifies readBuffer
      ensures readBuffer[..][..4] == old(readBuffer[..])[..4] && readBuffer[..][4..4 + |chunk|] == chunk
    {
      forall i | 0 <= i < |chunk| {
        readBuffer[4 + i] := chunk[i];
      }
    }

    /** sbumpc: takes one character, asking the device only if none is left in the buffer. */
    method Get(chunk: seq<char>) returns (c: Option<char>)
      requires Valid() && |chunk| <= bufsize - 4
      modifies readBuffer, `eback, `gptr, `egptr, `delivered, `returned, `ended
      ensures Valid()
      ensures returned == if c.Some? then old(returned) + [c.value] else old(returned)
      ensures c.Some? <==> old(gptr) < old(egptr) || (canRead && chunk != [])
      ensures safe ==> returned <= delivered
      ensures old(gptr) < old(egptr) ==>
                && c == Some(readBuffer[old(gptr)]) && readBuffer[..] == old(readBuffer[..])
                && (eback, gptr, egptr) == old((eback, gptr + 1, egptr)) && (delivered, ended) == old((delivered, ended))
      ensures var asked := canRead && old(gptr) == old(egptr);
              && (asked ==> delivered == old(delivered) + chunk && ended == (old(ended) || chunk == []))
              && (asked && chunk != [] ==>
                    (eback, gptr, egptr) == (4 - PutbackSize(old(eback), old(gptr)), 5, 4 + |chunk|))
              && (asked && chunk == [] ==>
                    && (eback, gptr, egptr) == old((eback, gptr, egptr))
                    && readBuffer[..] == Moved(old(readBuffer[..]), gptr, PutbackSize(eback, gptr)))
      ensures canRead && old(gptr) == old(egptr) && chunk != [] ==>
                && 4 - eback == (if old(gptr) - old(eback) < 4 then old(gptr) - old(eback) else 4)
                && 4 - eback == (if |old(delivered)| < 4 then |old(delivered)| else 4)
    {
      if gptr < egptr {
        c := Bump();
      } else {
        c := Underflow(chunk);
        if c.Some? {
          c := Bump();
        }
      }
    }

    /** Takes the next character of the get area. */
    method Bump() returns (c: Option<char>)
      requires Valid() && gptr < egptr
      modifies `gptr, `returned
      ensures Valid() && gptr == old(gptr) + 1
      ensures c == Some(readBuffer[old(gptr)]) && returned == old(returned) + [c.value]
    {
      if safe {
        GetKeeps(readBuffer[..], eback, gptr, egptr, delivered, returned, ended);
      }
      c := Some(readBuffer[gptr]);
      returned := returned + [readBuffer[gptr]];
      gptr := gptr + 1;
    }

    /** sungetc: steps back over a character that was returned, which is the next to be read again,
        unless the end of input may have overwritten it. */
    method Unget() returns (ok: bool)
      requires Valid()
      modifies `gptr, `returned, `safe
      ensures Valid() && (ok <==> old(eback) < old(gptr))
      ensures gptr == if ok then old(gptr) - 1 else old(gptr)
      ensures safe == (old(safe) && (ok ==> Lowest(eback, ended) < old(gptr)))
      ensures returned == if ok then DropLast(old(returned)) else old(returned)
      ensures ok && safe ==> |old(returned)| > 0 && readBuffer[gptr] == old(returned)[|old(returned)| - 1]
    {
      if eback == gptr {
        return false;
      }
      UngetKeepsIf(safe, readBuffer[..], eback, gptr, egptr, delivered, returned, ended);
      safe := safe && Lowest(eback, ended) < gptr;
      returned := DropLast(returned);
      gptr := gptr - 1;
      ok := true;
    }

    /** Until the end of input, right after a refill the last four characters returned, or all if there
        were fewer, can be put back one by one, and are then the next to be read. */
    method UngetAfterRefill(chunk: seq<char>, k: nat) returns (ok: bool)
      requires Valid() && safe && !ended && canRead && gptr == egptr
      requires chunk != [] && |chunk| <= bufsize - 4 && k <= 4 && k <= |returned|
      modifies readBuffer, `eback, `gptr, `egptr, `delivered, `ended, `returned, `safe
      ensures Valid() && ok && safe && returned == old(returned)[..|old(returned)| - k]
      ensures gptr + k <= egptr && readBuffer[..][gptr..gptr + k] == old(returned)[|old(returned)| - k..]
    {
      var _ := Underflow(chunk);
      ok := UngetMany(k);
      PutBack(readBuffer[..], gptr, egptr, old(returned), chunk, k);
    }

    method UngetMany(k: nat) returns (ok: bool)
      requires Valid() && safe && !ended && k <= gptr - eback
      modifies `gptr, `returned, `safe
      ensures Valid() && ok && safe && gptr == old(gptr) - k
      ensures k <= |old(returned)| && returned == old(returned)[..|old(returned)| - k]
    {
      ok := true;
      for i := 0 to k
        invariant Valid() && ok && safe && gptr == old(gptr) - i && i <= |old(returned)|
        invariant returned == old(returned)[..|old(returned)| - i]
      {
        ok := Unget();
      }
    }

    // -------------------------------------------------------------- writing

    /** The characters put and not yet written. */
    function Pending(): seq<char>
      requires pptr <= writeBuffer.Length
      reads this, writeBuffer
    {
      writeBuffer[..pptr]
    }

    /** Writes all pending characters; accepted is how many the device takes (negative: an error). */
    method FlushBuffer(accepted: int) returns (n: int)
      requires writeBuffer.Length == bufsize && pptr <= bufsize && accepted <= pptr
      modifies `pptr, `written, `intact
      ensures written == old(written) + writeBuffer[..if accepted < 0 then 0 else accepted]
      ensures accepted == old(pptr) ==> n == old(pptr) && pptr == 0 && intact == old(intact)
      ensures accepted != old(pptr) ==> n == -1 && pptr == old(pptr) && !intact
    {
      n := pptr;
      written := written + writeBuffer[..if accepted < 0 then 0 else accepted];
      if accepted == n {
        pptr := pptr - n;
        return;
      }
      intact := false;
      n := -1;
    }

    /** Called with the put area full: the character goes into the slot reserved past epptr, so the
        store stays inside the buffer, and everything pending is written. */
    method Overflow(c: Option<char>, accepted: int) returns (r: Option<char>)
      requires Valid() && (canWrite && c.Some? ==> pptr <= epptr)
      requires accepted <= pptr + (if c.Some? then 1 else 0)
      modifies writeBuffer, `pptr, `put, `written, `intact
      ensures Valid()
      ensures !canWrite ==> r == None && unchanged(writeBuffer) && unchanged(this)
      ensures canWrite ==>
                && put == (if c.Some? then old(put) + [c.value] else old(put))
                && var full := old(Pending()) + if c.Some? then [c.value] else [];
                   if accepted == |full|
                   then r == c && intact == old(intact) && Pending() == [] && written == old(written) + full
                   else r == None && !intact && Pending() == full
      ensures intact ==> put == written + Pending()
    {
      if !canWrite {
        return None;
      }
      if c.Some? {
        writeBuffer[pptr] := c.value;
        pptr := pptr + 1;
        put := put + [c.value];
      }
      ghost var full := writeBuffer[..pptr];
      assert full == old(Pending()) + if c.Some? then [c.value] else [];
      var n := FlushBuffer(accepted);
      if n == -1 {
        return None;
      }
      r := c;
    }

    /** sputc: stores the character if there is room, whatever the mode, and calls overflow if not. */
    method Put(c: char, accepted: int) returns (r: Option<char>)
      requires Valid() && (canWrite ==> pptr <= epptr) && accepted <= pptr + 1
      modifies writeBuffer, `pptr, `put, `written, `intact
      ensures Valid()
      ensures var full := old(Pending()) + [c];
              if old(pptr) < epptr
              then r == Some(c) && put == old(put) + [c] && intact == old(intact) && Pending() == full && written == old(written)
              else if !canWrite then r == None && unchanged(writeBuffer) && unchanged(this)
              else if accepted == |full|
              then r == Some(c) && put == old(put) + [c] && intact == old(intact) && Pending() == []
                   && written == old(written) + full
              else r == None && put == old(put) + [c] && !intact && Pending() == full
      ensures intact ==> put == written + Pending()
    {
      if pptr < epptr {
        ghost var before := writeBuffer[..pptr];
        writeBuffer[pptr] := c;
        pptr := pptr + 1;
        put := put + [c];
        assert writeBuffer[..pptr] == before + [c];
        r := Some(c);
      } else {
        r := Overflow(Some(c), accepted);
      }
    }

    /** A successful sync leaves nothing pending: if the device has accepted every write in full, it has
        got everything that was put. */
    method Sync(accepted: int) returns (r: int)
      requires Valid() && accepted <= pptr
      modifies `pptr, `written, `intact
      ensures Valid() && (r == 0 || r == -1)
      ensures r == 0 <==> old(pptr) == 0 || accepted == old(pptr)
      ensures r == 0 ==> Pending() == [] && intact == old(intact) && (intact ==> written == put)
      ensures r == -1 ==> pptr == old(pptr) && !intact
    {
      if pptr > 0 {
        assert intact ==> written + writeBuffer[..pptr] == put;
        var n := FlushBuffer(accepted);
        if n == -1 {
          return -1;
        }
      }
      r := 0;
    }

    /** Takes all characters that are left in the get area. */
    method GetRest()
      requires Valid() && safe
      modifies readBuffer, `eback, `gptr, `egptr, `delivered, `returned, `ended
      ensures Valid() && readBuffer[..] == old(readBuffer[..])
      ensures gptr == egptr && (eback, egptr, delivered, ended) == old((eback, egptr, delivered, ended))
      ensures returned == delivered
    {
      while gptr < egptr
        invariant Valid() && readBuffer[..] == old(readBuffer[..])
        invariant (eback, egptr, delivered, ended) == old((eback, egptr, delivered, ended))
        decreases egptr - gptr
      {
        var _ := Get([]);
      }
    }
  }

  method ReadFive() returns (b: StreamBuf)
    ensures fresh(b) && fresh(b.readBuffer) && b.Valid() && b.canRead && b.safe && !b.ended
    ensures b.bufsize == 9 && (b.eback, b.gptr, b.egptr) == (4, 9, 9) && b.returned == b.delivered == "abcde"
  {
    b := new StreamBuf(9, true, true);
    var _ := b.Get("abcde");
    b.GetRest();
    assert b.delivered == [] + "abcde" == "abcde";
  }

  /** A device delivers "abcde" and then "fg", and all of it is read. */
  method ReadSeven() returns (b: StreamBuf)
    ensures fresh(b) && fresh(b.readBuffer) && b.Valid() && b.canRead && b.safe && !b.ended
    ensures b.bufsize == 9 && (b.eback, b.gptr, b.egptr) == (0, 6, 6) && b.returned == b.delivered == "abcdefg"
  {
    b := ReadFive();
    var _ := b.Get("fg");
    b.GetRest();
    assert b.delivered == "abcde" + "fg" == "abcdefg";
  }

  /** The end of input can overwrite what may still be put back: in this run it is reported after seven
      characters, and the reader steps back over "efg". What it then reads is not the 'e'. */
  method EndLosesPutback() returns (stepped: bool, again: Option<char>)
    ensures stepped && again == Some('g')
  {
    var b := ReadSeven();
    assert b.readBuffer[..][5] == b.returned[6] == 'g';
    var _ := b.Get([]);
    assert b.readBuffer[..][3] == 'g';
    stepped := StepBack(b);
    again := b.Get([]);
  }

  method StepBack(b: StreamBuf) returns (stepped: bool)
    requires b.Valid() && b.eback + 3 <= b.gptr
    modifies b`gptr, b`returned, b`safe
    ensures b.Valid() && stepped && b.gptr == old(b.gptr) - 3
  {
    stepped := b.Unget();
    stepped := b.Unget();
    stepped := b.Unget();
  }
}
