/** hello_read in hello.c: reading /dev/hello yields the constant message
    "Hello from /dev/hello\n" once, in pieces as small as the caller asks for, then EOF. */
module HelloDriver {
  import opened Bytes
  import opened CharRead

  /** The bytes of an ASCII string. */
  function Ascii(s: string): (bs: seq<byte>)
    requires forall i :: 0 <= i < |s| ==> s[i] as int < 128
    ensures |bs| == |s| && forall i :: 0 <= i < |s| ==> bs[i] == s[i] as int
  {
    seq(|s|, i requires 0 <= i < |s| => s[i] as int)
  }

  /** `hello_msg` as stored: the string literal and its terminating NUL. */
  const HelloStorage: seq<byte> := Ascii("Hello from /dev/hello\n") + [0]

  /** sizeof(hello_msg) - 1: the message without the NUL. */
  function MessageLength(): (len: nat)
    ensures len == 22 && len == |HelloStorage| - 1 && HelloStorage[len] == 0
  {
    |HelloStorage| - 1
  }

  /** The bytes the device serves. */
  function HelloMessage(): (msg: seq<byte>)
    ensures |msg| == 22 && msg == HelloStorage[..MessageLength()]
    ensures 0 !in msg && msg[21] == '\n' as int
  {
    HelloStorage[..MessageLength()]
  }

  /** An open file of /dev/hello; pos is the file position (*ppos). */
  class HelloFile {
    var pos: nat

    constructor ()
      ensures pos == 0
    {
      pos := 0;
    }

    /** The read handler; bufferOk is whether the caller's buffer can be written and
        chunk is what reaches it. */
    method Read(count: nat, bufferOk: bool) returns (ret: int, chunk: seq<byte>)
      modifies this
      ensures ReadResult(ret, chunk, pos) == ReadAt(HelloMessage(), old(pos), count, bufferOk)
      ensures old(pos) >= 22 ==> ret == 0 && chunk == [] && pos == old(pos)
      ensures old(pos) < 22 && count > 0 && !bufferOk ==> ret == -(EFAULT as int) && chunk == [] && pos == old(pos)
      ensures old(pos) < 22 && (count == 0 || bufferOk) ==>
                ret == Min(count, 22 - old(pos)) && pos == old(pos) + ret <= 22 &&
                chunk == HelloMessage()[old(pos)..pos]
    {
      var len := MessageLength();
      if pos >= len {
        return 0, [];
      }
      var n := count;
      if n > len - pos {
        n := len - pos;
      }
      if CopyFails(n, bufferOk) {
        return -(EFAULT as int), [];
      }
      chunk := HelloStorage[pos..pos + n];
      pos := pos + n;
      ret := n;
    }
  }

  /** The message, once per read call. */
  function Repeated(n: nat): (records: seq<seq<byte>>)
    ensures |records| == n && forall i :: 0 <= i < n ==> records[i] == HelloMessage()
  {
    seq(n, _ => HelloMessage())
  }

  /** Any run of reads from position 0 whose successful requests ask for at least the
      message's length, in whatever pieces and with whatever copy failures in between,
      concatenates to exactly the message and ends at EOF. */
  lemma ReadsConcatenateToMessage(reqs: seq<Request>)
    requires Requested(reqs) >= 22
    ensures Drain(Repeated(|reqs|), 0, reqs) == (HelloMessage(), 22)
  {
    var msg := HelloMessage();
    DrainWholeRecord(msg, Repeated(|reqs|), reqs);
  }

  /** Fewer requested bytes deliver a prefix of the message: a reader that stops early
      has read exactly the first bytes, with nothing skipped or repeated. */
  lemma ReadsDeliverPrefix(reqs: seq<Request>)
    ensures Drain(Repeated(|reqs|), 0, reqs).1 == Min(22, Requested(reqs))
    ensures Drain(Repeated(|reqs|), 0, reqs).0 == HelloMessage()[..Min(22, Requested(reqs))]
  {
    DrainSameRecord(HelloMessage(), Repeated(|reqs|), reqs);
  }
}
