/** The log channel of main.c: writers send each message followed by one NUL byte;
    the logging process reads the byte stream one byte at a time, ends an entry at
    every NUL, keeps at most LOG_MSG_MAX_LEN - 1 bytes of each message and drops
    whatever follows the last NUL. */
module LogPipe {
  import opened Base
  import opened Config

  type Byte = b: int | 0 <= b < 256

  /** The bytes the reader keeps of one message. */
  const MAX_KEPT: nat := LOG_MSG_MAX_LEN - 1

  predicate NulFree(m: seq<Byte>)
  {
    forall i :: 0 <= i < |m| ==> m[i] != 0
  }

  /** strlen: the number of bytes before the first NUL. */
  function StrLen(mem: seq<Byte>): (n: nat)
    requires 0 in mem
    ensures n < |mem| && mem[n] == 0
    ensures NulFree(mem[..n])
  {
    if mem[0] == 0 then 0
    else
      var n := 1 + StrLen(mem[1..]);
      assert mem[..n] == [mem[0]] + mem[1..][..n - 1];
      n
  }

  /** What one successful write puts on the pipe: the text and its terminator. */
  function Frame(text: seq<Byte>): seq<Byte>
  {
    text + [0]
  }

  datatype WriteResult = WriteResult(status: int, written: seq<Byte>)

  /** write_to_log_process. `msg` is the memory the message pointer designates (None
      for a NULL pointer); `lockOk` and `unlockOk` are whether locking and unlocking
      the pipe's mutex succeed, and `pipeAccepts` whether the write on the pipe does.
      A write on the pipe is all or nothing, as it is for messages this short. */
  function WriteToLog(msg: Option<seq<Byte>>, lockOk: bool, pipeAccepts: bool, unlockOk: bool): (r: WriteResult)
    requires msg.Some? ==> 0 in msg.value
    ensures r.status == SUCCESS || r.status == ERR_FILE_IO
    ensures r.status == SUCCESS <==> msg.Some? && lockOk && pipeAccepts && unlockOk
    ensures msg.None? || !lockOk || !pipeAccepts ==> r.written == []
    ensures msg.Some? && lockOk && pipeAccepts ==>
              && |r.written| == StrLen(msg.value) + 1
              && r.written == msg.value[..|r.written|]
              && NulFree(r.written[..|r.written| - 1])
              && r.written[|r.written| - 1] == 0
  {
    match msg
    case None => WriteResult(ERR_FILE_IO, [])
    case Some(mem) =>
      if !lockOk then WriteResult(ERR_FILE_IO, [])
      else
        var n := StrLen(mem);
        assert mem[..n + 1] == mem[..n] + [0];
        var written := if pipeAccepts then Frame(mem[..n]) else [];
        var result := if pipeAccepts then SUCCESS else ERR_FILE_IO;
        if unlockOk then WriteResult(result, written) else WriteResult(ERR_FILE_IO, written)
  }

  /** The first `MAX_KEPT` bytes of a message. */
  function Truncate(m: seq<Byte>): (r: seq<Byte>)
    ensures |r| <= MAX_KEPT
    ensures r <= m
    ensures |m| <= MAX_KEPT ==> r == m
    ensures |m| > MAX_KEPT ==> r == m[..MAX_KEPT]
  {
    if |m| <= MAX_KEPT then m else m[..MAX_KEPT]
  }

  /** The bytes after the last NUL of a stream. */
  function Pending(s: seq<Byte>): (r: seq<Byte>)
    ensures NulFree(r)
  {
    if |s| == 0 then []
    else if s[|s| - 1] == 0 then []
    else Pending(s[..|s| - 1]) + [s[|s| - 1]]
  }

  /** The entries the reader emits for a stream: one per NUL, each holding the
      truncated bytes since the previous NUL. */
  function Entries(s: seq<Byte>): seq<seq<Byte>>
  {
    if |s| == 0 then []
    else if s[|s| - 1] == 0 then Entries(s[..|s| - 1]) + [Truncate(Pending(s[..|s| - 1]))]
    else Entries(s[..|s| - 1])
  }

  function NulCount(s: seq<Byte>): nat
  {
    if |s| == 0 then 0 else NulCount(s[..|s| - 1]) + (if s[|s| - 1] == 0 then 1 else 0)
  }

  /** Exactly one entry per NUL byte received. */
  lemma {:induction false} OneEntryPerNul(s: seq<Byte>)
    ensures |Entries(s)| == NulCount(s)
  {
    if |s| > 0 {
      OneEntryPerNul(s[..|s| - 1]);
    }
  }

  /** Bytes after the final NUL never produce an entry. */
  lemma {:induction false} UnterminatedTailDropped(s: seq<Byte>, tail: seq<Byte>)
    requires NulFree(tail)
    ensures Entries(s + tail) == Entries(s)
    ensures Pending(s + tail) == Pending(s) + tail
    decreases |tail|
  {
    if |tail| == 0 {
      assert s + tail == s;
    } else {
      var t := tail[..|tail| - 1];
      UnterminatedTailDropped(s, t);
      var b := tail[|tail| - 1];
      assert tail == t + [b];
      assert s + tail == (s + t) + [b];
      ReadOneByte(s + t, b);
    }
  }

  /** A framed message appended after a complete entry adds exactly its truncation. */
  lemma AppendFrame(s: seq<Byte>, m: seq<Byte>)
    requires Pending(s) == []
    requires NulFree(m)
    ensures Entries(s + Frame(m)) == Entries(s) + [Truncate(m)]
    ensures Pending(s + Frame(m)) == []
  {
    UnterminatedTailDropped(s, m);
    var t := s + Frame(m);
    assert t[..|t| - 1] == s + m;
    assert t[|t| - 1] == 0;
    assert Pending(s + m) == m;
  }

  /** Everything written: the frames of the messages in the order the writers took
      the pipe's mutex. */
  function Stream(msgs: seq<seq<Byte>>): seq<Byte>
  {
    if |msgs| == 0 then [] else Stream(msgs[..|msgs| - 1]) + Frame(msgs[|msgs| - 1])
  }

  function TruncateAll(msgs: seq<seq<Byte>>): (r: seq<seq<Byte>>)
    ensures |r| == |msgs|
    ensures forall i :: 0 <= i < |msgs| ==> r[i] == Truncate(msgs[i])
  {
    seq(|msgs|, i requires 0 <= i < |msgs| => Truncate(msgs[i]))
  }

  /** The reader recovers every NUL-free message, truncated, in order. */
  lemma {:induction false} DeframeStream(msgs: seq<seq<Byte>>)
    requires forall i :: 0 <= i < |msgs| ==> NulFree(msgs[i])
    ensures Entries(Stream(msgs)) == TruncateAll(msgs)
    ensures Pending(Stream(msgs)) == []
    decreases |msgs|
  {
    if |msgs| > 0 {
      var init := msgs[..|msgs| - 1];
      DeframeStream(init);
      AppendFrame(Stream(init), msgs[|msgs| - 1]);
      assert TruncateAll(msgs) == TruncateAll(init) + [Truncate(msgs[|msgs| - 1])];
    }
  }

  /** Round trip: NUL-free messages of at most MAX_KEPT bytes come back unchanged. */
  lemma RoundTrip(msgs: seq<seq<Byte>>)
    requires forall i :: 0 <= i < |msgs| ==> NulFree(msgs[i]) && |msgs[i]| <= MAX_KEPT
    ensures Entries(Stream(msgs)) == msgs
  {
    DeframeStream(msgs);
  }

  lemma StreamSnoc(msgs: seq<seq<Byte>>, m: seq<Byte>)
    ensures Stream(msgs + [m]) == Stream(msgs) + Frame(m)
    ensures TruncateAll(msgs + [m]) == TruncateAll(msgs) + [Truncate(m)]
  {
    assert (msgs + [m])[..|msgs|] == msgs;
  }

  /** Every stream is a sequence of framed NUL-free messages followed by an
      unterminated fragment, and the reader's entries are those messages, truncated. */
  lemma {:induction false} Decompose(s: seq<Byte>) returns (msgs: seq<seq<Byte>>)
    ensures forall i :: 0 <= i < |msgs| ==> NulFree(msgs[i])
    ensures s == Stream(msgs) + Pending(s)
    ensures Entries(s) == TruncateAll(msgs)
  {
    if |s| == 0 {
      msgs := [];
    } else {
      var init := s[..|s| - 1];
      assert s == init + [s[|s| - 1]];
      var prev := Decompose(init);
      if s[|s| - 1] == 0 {
        var p := Pending(init);
        msgs := prev + [p];
        StreamSnoc(prev, p);
      } else {
        msgs := prev;
      }
    }
  }

  /** One line of the log file, without its clock time. */
  datatype LogEntry = LogEntry(seqNo: nat, text: seq<Byte>)

  /** What one more byte does to the entries and to the pending fragment. */
  lemma ReadOneByte(p: seq<Byte>, b: Byte)
    ensures b == 0 ==> Entries(p + [b]) == Entries(p) + [Truncate(Pending(p))] && Pending(p + [b]) == []
    ensures b != 0 ==> Entries(p + [b]) == Entries(p) && Pending(p + [b]) == Pending(p) + [b]
  {
    assert (p + [b])[..|p|] == p;
  }

  /** run_logging_process: the read loop over the whole stream. Entries are numbered
      from 0 in the order their NUL arrives. */
  method RunLoggingProcess(stream: seq<Byte>) returns (log: seq<LogEntry>)
    ensures |log| == NulCount(stream)
    ensures |log| == |Entries(stream)|
    ensures forall k :: 0 <= k < |log| ==> log[k] == LogEntry(k, Entries(stream)[k])
  {
    var message: seq<Byte> := [];
    var logSequence := 0;
    log := [];
    var i := 0;
    while i < |stream|
      invariant 0 <= i <= |stream|
      invariant logSequence == |log| == |Entries(stream[..i])|
      invariant forall k :: 0 <= k < |log| ==> log[k] == LogEntry(k, Entries(stream[..i])[k])
      invariant message == Truncate(Pending(stream[..i]))
    {
      var b := stream[i];
      ReadOneByte(stream[..i], b);
      assert stream[..i + 1] == stream[..i] + [b];
      if b == 0 {
        log := log + [LogEntry(logSequence, message)];
        logSequence := logSequence + 1;
        message := [];
      } else if |message| < LOG_MSG_MAX_LEN - 1 {
        message := message + [b];
      }
      i := i + 1;
    }
    assert stream[..|stream|] == stream;
    OneEntryPerNul(stream);
  }
}
