/** Length-prefixed messages over a byte pipe between two processes. Writes and reads of the
    payload may be short and interleave in any order; a length word is written and read whole. */
module MessageQueue {

  type byte = b: int | 0 <= b < 256
  type Message = m: seq<byte> | |m| < 0x8000_0000

  /** The length word, lowest byte first. */
  function Word(n: nat): (w: seq<byte>)
    ensures |w| == 4
  {
    [n % 256, n / 256 % 256, n / 0x1_0000 % 256, n / 0x100_0000 % 256]
  }

  function FromWord(w: seq<byte>): nat
    requires |w| == 4
  {
    var a: int, b: int, c: int, d: int := w[0], w[1], w[2], w[3];
    a + 256 * b + 0x1_0000 * c + 0x100_0000 * d
  }

  lemma WordBack(n: nat)
    requires n < 0x8000_0000
    ensures FromWord(Word(n)) == n
    ensures var w, b: int, c: int, d: int := Word(n), Word(n)[1], Word(n)[2], Word(n)[3];
            w[0] + 0x100 * b + 0x1_0000 * c + 0x100_0000 * d == n
  {
    var a, b, c := n / 256, n / 0x1_0000, n / 0x100_0000;
    assert n == 256 * a + n % 256;
    assert a == 256 * b + a % 256;
    assert b == 256 * c + b % 256;
    assert c < 256;
  }

  function Frame(m: Message): seq<byte>
  {
    Word(|m|) + m
  }

  /** Where a sender is in its current message, and a receiver in its. */
  datatype Sender = Idle | Sending(sent: nat)
  datatype Receiver = Ready | Receiving(len: nat, buffer: seq<byte>)

  /** The messages begun so far, the last of which the sender may still be writing; the bytes in
      the pipe; the messages received; and whether a receiver had too small a buffer. */
  datatype State = State(
    begun: seq<Message>, snd: Sender, pipe: seq<byte>, rcv: Receiver, received: seq<Message>, overflow: bool)

  const INIT := State([], Idle, [], Ready, [], false)

  datatype Action =
    | Begin(msg: Message)
    | WriteSome(n: nat)
    | ReadLength(size: nat)
    | ReadSome(n: nat)

  /** One system call of either side; one that cannot happen or yields nothing changes nothing. */
  function Do(st: State, a: Action): State
  {
    if st.overflow then st else
      match a
      case Begin(msg) =>
        if st.snd != Idle then st
        else
          st.(begun := st.begun + [msg], snd := if msg == [] then Idle else Sending(0),
              pipe := st.pipe + Word(|msg|))
      case WriteSome(n) => WritePart(st, n)
      case ReadLength(size) => ReadHead(st, size)
      case ReadSome(n) => ReadPart(st, n)
  }

  /** The sender writes some of what is left of its message. */
  function WritePart(st: State, n: nat): State
  {
    if st.begun == [] || !st.snd.Sending? then st else
      var m, from := st.begun[|st.begun| - 1], st.snd.sent;
      if n == 0 || from + n > |m| then st
      else st.(snd := if from + n == |m| then Idle else Sending(from + n), pipe := st.pipe + m[from..from + n])
  }

  /** The receiver reads a length word; there is no message if the pipe has none. */
  function ReadHead(st: State, size: nat): State
  {
    if st.rcv != Ready || |st.pipe| < 4 then st else
      var len := FromWord(st.pipe[..4]);
      if len > size then st.(overflow := true)
      else if len == 0 then st.(pipe := st.pipe[4..], received := st.received + [[]])
      else st.(pipe := st.pipe[4..], rcv := Receiving(len, []))
  }

  /** The receiver reads some of what is left of its message. */
  function ReadPart(st: State, n: nat): State
  {
    if !st.rcv.Receiving? || n == 0 || n > |st.pipe| || |st.rcv.buffer| + n > st.rcv.len
       || st.rcv.len >= 0x8000_0000 then st else
      var b := st.rcv.buffer + st.pipe[..n];
      var s := st.(pipe := st.pipe[n..]);
      if |b| == st.rcv.len then s.(rcv := Ready, received := s.received + [b]) else s.(rcv := Receiving(st.rcv.len, b))
  }

  /** The state after a run. */
  function Run(actions: seq<Action>): State
  {
    if actions == [] then INIT else Do(Run(actions[..|actions| - 1]), actions[|actions| - 1])
  }

  // ---------------------------------------------------------------- the invariant

  /** What has been written of the messages: all of each but the last, if that is being sent. */
  function Written(msgs: seq<Message>, snd: Sender): seq<byte>
  {
    if msgs == [] then []
    else if |msgs| == 1 && snd.Sending? && snd.sent <= |msgs[0]| then Word(|msgs[0]|) + msgs[0][..snd.sent]
    else Frame(msgs[0]) + Written(msgs[1..], snd)
  }

  /** The messages not yet received; the pipe holds what is written and not read of them. */
  ghost predicate Inv(st: State)
  {
    && |st.received| <= |st.begun| && st.received == st.begun[..|st.received|]
    && (st.snd.Sending? ==> |st.received| < |st.begun| && st.snd.sent < |st.begun[|st.begun| - 1]|)
    && var left := st.begun[|st.received|..];
       match st.rcv
       case Ready => st.pipe == Written(left, st.snd)
       case Receiving(len, buffer) =>
         && left != [] && len == |left[0]| && |buffer| < len && buffer == left[0][..|buffer|]
         && Word(len) + buffer + st.pipe == Written(left, st.snd)
  }

  /** Beginning a message appends its length word; the messages before are complete. */
  lemma {:induction false} WrittenBegin(msgs: seq<Message>, m: Message)
    ensures Written(msgs + [m], if m == [] then Idle else Sending(0)) == Written(msgs, Idle) + Word(|m|)
  {
    if msgs == [] {
      assert (msgs + [m])[1..] == [];
      assert Word(|m|) + m[..0] == Word(|m|);
    } else {
      assert (msgs + [m])[1..] == msgs[1..] + [m];
      WrittenBegin(msgs[1..], m);
    }
  }

  /** Writing more of the last message appends to the stream. */
  lemma {:induction false} WrittenMore(msgs: seq<Message>, from: nat, n: nat)
    requires msgs != [] && 0 < n && from + n <= |msgs[|msgs| - 1]|
    ensures var m := msgs[|msgs| - 1];
            Written(msgs, if from + n == |m| then Idle else Sending(from + n)) == Written(msgs, Sending(from))
                + m[from..from + n]
  {
    var m := msgs[|msgs| - 1];
    var snd := if from + n == |m| then Idle else Sending(from + n);
    if |msgs| == 1 {
      OneMore(m, from, n);
      assert msgs == [m];
    } else {
      var rest := msgs[1..];
      assert rest[|rest| - 1] == m;
      WrittenMore(rest, from, n);
      assert Written(msgs, snd) == Frame(msgs[0]) + Written(rest, snd);
      assert Written(msgs, Sending(from)) == Frame(msgs[0]) + Written(rest, Sending(from));
    }
  }

  lemma OneMore(m: Message, from: nat, n: nat)
    requires 0 < n && from + n <= |m|
    ensures Written([m], if from + n == |m| then Idle else Sending(from + n)) == Written([m], Sending(from))
              + m[from..from + n]
  {
    assert m[..from] + m[from..from + n] == m[..from + n];
    if from + n == |m| {
      assert m[..from + n] == m;
      assert [m][1..] == [];
    }
  }

  /** The stream starts with the first message's length word and then its bytes. */
  lemma WrittenStarts(msgs: seq<Message>, snd: Sender, j: nat)
    requires msgs != [] && j <= |msgs[0]| && 4 + j <= |Written(msgs, snd)|
    ensures Written(msgs, snd)[..4] == Word(|msgs[0]|)
    ensures Written(msgs, snd)[4..4 + j] == msgs[0][..j]
  {
  }

  lemma WrittenLong(msgs: seq<Message>, snd: Sender)
    requires msgs != []
    ensures |Written(msgs, snd)| >= 4
  {
  }

  /** A first message of which all bytes are written is followed by the rest. */
  lemma WrittenRest(msgs: seq<Message>, snd: Sender)
    requires msgs != [] && |Written(msgs, snd)| >= 4 + |msgs[0]|
    requires |msgs| == 1 && snd.Sending? ==> snd.sent < |msgs[0]|
    ensures Written(msgs, snd) == Frame(msgs[0]) + Written(msgs[1..], snd)
  {
  }

  lemma BeginInv(st: State, msg: Message)
    requires Inv(st) && st.snd == Idle
    ensures Inv(Do(st, Begin(msg)))
  {
    var left := st.begun[|st.received|..];
    assert (st.begun + [msg])[|st.received|..] == left + [msg];
    assert (st.begun + [msg])[..|st.received|] == st.begun[..|st.received|];
    WrittenBegin(left, msg);
    if !st.overflow && st.rcv.Receiving? {
      var w := Word(st.rcv.len) + st.rcv.buffer;
      assert w + (st.pipe + Word(|msg|)) == (w + st.pipe) + Word(|msg|);
    }
  }

  lemma WriteInv(st: State, n: nat)
    requires Inv(st)
    ensures Inv(WritePart(st, n))
  {
    hide Frame, Word, Written;
    var r := WritePart(st, n);
    if r != st {
      var left := st.begun[|st.received|..];
      var m, from := st.begun[|st.begun| - 1], st.snd.sent;
      assert left[|left| - 1] == m;
      WrittenMore(left, from, n);
      if st.rcv.Receiving? {
        var w := Word(st.rcv.len) + st.rcv.buffer;
        assert w + (st.pipe + m[from..from + n]) == (w + st.pipe) + m[from..from + n];
      }
    }
  }

  /** After the length word of an empty message come the messages behind it. */
  lemma EmptyFirst(msgs: seq<Message>, snd: Sender)
    requires msgs != [] && msgs[0] == [] && |Written(msgs, snd)| >= 4
    requires |msgs| == 1 && snd.Sending? ==> snd.sent < |msgs[0]|
    ensures Written(msgs, snd)[4..] == Written(msgs[1..], snd)
  {
    WrittenRest(msgs, snd);
  }

  lemma NoneWritten(snd: Sender)
    ensures Written([], snd) == []
  {
  }

  lemma ReadHeadInv(st: State, size: nat)
    requires Inv(st)
    ensures Inv(ReadHead(st, size))
  {
    hide Frame, Written, Word;
    var left := st.begun[|st.received|..];
    if st.rcv == Ready && |st.pipe| >= 4 {
      NoneWritten(st.snd);
      WrittenStarts(left, st.snd, 0);
      WordBack(|left[0]|);
      if left[0] == [] {
        EmptyFirst(left, st.snd);
        assert left[1..] == st.begun[|st.received| + 1..];
        assert st.begun[..|st.received| + 1] == st.begun[..|st.received|] + [left[0]];
      } else {
        assert Word(|left[0]|) + [] + st.pipe[4..] == st.pipe;
      }
    }
  }

  /** Moving n bytes from the pipe to the buffer keeps the stream. */
  lemma MoveBytes(w: seq<byte>, buffer: seq<byte>, pipe: seq<byte>, n: nat)
    requires |w| == 4 && n <= |pipe|
    ensures var b, stream := buffer + pipe[..n], w + buffer + pipe;
            && w + b + pipe[n..] == stream
            && |stream| >= 4 + |b| && stream[4..4 + |b|] == b && stream[4 + |b|..] == pipe[n..]
  {
  }

  lemma WrittenPart(msgs: seq<Message>, snd: Sender)
    requires |msgs| == 1 && snd.Sending? && snd.sent < |msgs[0]|
    ensures |Written(msgs, snd)| == 4 + snd.sent
  {
  }

  /** Once the buffer is full it is the first message, and the pipe holds the rest. */
  lemma FullBuffer(msgs: seq<Message>, snd: Sender, b: seq<byte>, pipe: seq<byte>)
    requires msgs != [] && |b| == |msgs[0]| && b == msgs[0][..|b|]
    requires |msgs| == 1 && snd.Sending? ==> snd.sent < |msgs[0]|
    requires Word(|msgs[0]|) + b + pipe == Written(msgs, snd)
    ensures b == msgs[0] && pipe == Written(msgs[1..], snd)
    ensures snd.Sending? ==> |msgs| > 1
  {
    if |msgs| == 1 && snd.Sending? {
      WrittenPart(msgs, snd);
    }
    WrittenRest(msgs, snd);
    hide Written, Word;
    var f := Frame(msgs[0]);
    assert pipe == (f + pipe)[|f|..];
    assert Written(msgs[1..], snd) == (f + Written(msgs[1..], snd))[|f|..];
  }

  lemma ReadPartInv(st: State, n: nat)
    requires Inv(st)
    ensures Inv(ReadPart(st, n))
  {
    hide Written, Word, FromWord;
    var r := ReadPart(st, n);
    if r != st {
      var left := st.begun[|st.received|..];
      var len, buffer := st.rcv.len, st.rcv.buffer;
      var b := buffer + st.pipe[..n];
      MoveBytes(Word(len), buffer, st.pipe, n);
      WrittenStarts(left, st.snd, |b|);
      if |b| == len {
        FullBuffer(left, st.snd, b, st.pipe[n..]);
        assert left[1..] == st.begun[|st.received| + 1..];
        assert st.begun[..|st.received| + 1] == st.begun[..|st.received|] + [left[0]];
      }
    }
  }

  lemma {:induction false} RunInv(actions: seq<Action>)
    ensures Inv(Run(actions))
  {
    if actions != [] {
      var st := Run(actions[..|actions| - 1]);
      RunInv(actions[..|actions| - 1]);
      match actions[|actions| - 1]
      case Begin(msg) => if st.snd == Idle { BeginInv(st, msg); }
      case WriteSome(n) => WriteInv(st, n);
      case ReadLength(size) => ReadHeadInv(st, size);
      case ReadSome(n) => ReadPartInv(st, n);
    }
  }

  // ---------------------------------------------------------------- theorems

  /** However sending and receiving interleave, what has been received is what was sent, in
      order, and once both sides rest with nothing in the pipe it is all of it. */
  lemma ReceivedIsSent(actions: seq<Action>)
    ensures var st := Run(actions);
            && |st.received| <= |st.begun| && st.received == st.begun[..|st.received|]
            && (st.snd == Idle && st.rcv == Ready && st.pipe == [] ==> st.received == st.begun)
  {
    var st := Run(actions);
    RunInv(actions);
    var left := st.begun[|st.received|..];
    if st.snd == Idle && st.rcv == Ready && st.pipe == [] && left != [] {
      WrittenLong(left, Idle);
    }
  }

  /** Between messages the pipe is at a message boundary: it is empty or starts with the whole
      length word of the next message, never part of one. */
  lemma AtBoundary(actions: seq<Action>)
    ensures var st := Run(actions);
            st.rcv == Ready && st.pipe != [] ==>
              && |st.received| < |st.begun| && |st.pipe| >= 4
              && FromWord(st.pipe[..4]) == |st.begun[|st.received|]|
  {
    var st := Run(actions);
    RunInv(actions);
    var left := st.begun[|st.received|..];
    if st.rcv == Ready && st.pipe != [] {
      assert left != [] by {
        assert Written([], st.snd) == [];
      }
      WrittenLong(left, st.snd);
      WrittenStarts(left, st.snd, 0);
      WordBack(|left[0]|);
    }
  }

  /** A receiver gives up on a message exactly when its buffer is smaller than the message. */
  lemma OverflowOnlyWhenTooLong(actions: seq<Action>, size: nat)
    ensures var st := Run(actions);
            !st.overflow && st.rcv == Ready && st.pipe != [] ==>
              && |st.received| < |st.begun|
              && (Do(st, ReadLength(size)).overflow <==> |st.begun[|st.received|]| > size)
  {
    AtBoundary(actions);
  }

  // ---------------------------------------------------------------- the loops

  /** One write call: some of the bytes, at least one, go to the end of the pipe. */
  class Pipe {
    var data: seq<byte>

    method WriteCall(bytes: seq<byte>) returns (n: nat)
      requires bytes != []
      modifies this
      ensures 0 < n <= |bytes| && data == old(data) + bytes[..n]
    {
      var k: nat := *;
      n := if 0 < k <= |bytes| then k else |bytes|;
      data := data + bytes[..n];
    }

    /** Send a message: its length word, then the payload in as many writes as it takes. */
    method Send(msg: Message)
      modifies this
      ensures data == old(data) + Frame(msg)
    {
      data := data + Word(|msg|);
      var sent := 0;
      while sent < |msg|
        invariant 0 <= sent <= |msg|
        invariant data == old(data) + Word(|msg|) + msg[..sent]
      {
        var n := WriteCall(msg[sent..]);
        assert msg[..sent] + msg[sent..][..n] == msg[..sent + n];
        sent := sent + n;
      }
      assert msg[..sent] == msg;
    }
  }

  /** How a receive ends: nothing there, a message, one too long for the buffer, or no more of it
      coming for too long. */
  datatype Receipt = Absent | Torn | Present | TooLong | GaveUp

  /** Reads in a row that may find nothing. */
  const MAX_EMPTY_TRIPS: nat := 100000

  /** The receiving end: the bytes in the pipe and those that the sender has still to write. */
  class Inlet {
    var data: seq<byte>
    var coming: seq<byte>

    /** The sender writes some more, or nothing. */
    method Arrive()
      modifies this
      ensures data + coming == old(data + coming) && |data| >= old(|data|)
    {
      var k: nat := *;
      var n := if 0 < k <= |coming| then k else 0;
      data, coming := data + coming[..n], coming[n..];
    }

    /** One read call: some of the first bytes, none if there are none. */
    method ReadCall(most: nat) returns (bytes: seq<byte>)
      requires most > 0
      modifies this
      ensures |bytes| <= most && bytes + data + coming == old(data + coming)
    {
      Arrive();
      ghost var before := data;
      var k: nat := *;
      var available := if |data| < most then |data| else most;
      var n := if 0 < k <= available then k else available;
      bytes := data[..n];
      data := data[n..];
      assert bytes + data == before;
    }

    /** Read a length word, or as much of it as there is. */
    method ReadWord() returns (w: seq<byte>)
      modifies this
      ensures w + data + coming == old(data + coming)
      ensures |w| == if old(|data|) < 4 then old(|data|) else 4
      ensures old(|data|) < 4 ==> data == [] && coming == old(coming)
    {
      var n := if |data| < 4 then |data| else 4;
      w := data[..n];
      assert w + data[n..] == data;
      data := data[n..];
    }

    /** Receive a message, whose payload may arrive in any pieces while it is being read. Of a length
        word that is not whole in the pipe the first bytes are lost. */
    method Receive(size: nat, ghost msg: Message, ghost rest: seq<byte>) returns (r: Receipt, got: seq<byte>)
      requires |data| >= 4 ==> data + coming == Frame(msg) + rest
      modifies this
      ensures r == Absent <==> old(data) == []
      ensures r == Torn <==> 0 < old(|data|) < 4
      ensures r == Absent || r == Torn ==> data == [] && coming == old(coming)
      ensures r == TooLong <==> old(|data|) >= 4 && |msg| > size
      ensures r == Present ==> got == msg && data + coming == rest
      ensures r == GaveUp ==> |got| < |msg| && got + data + coming == msg + rest
    {
      hide FromWord, Word, Frame;
      got := [];
      var w := ReadWord();
      if |w| < 4 {
        return if w == [] then Absent else Torn, [];
      }
      assert w + (data + coming) == w + data + coming;
      HeadWord(w, data + coming, msg, rest);
      WordBack(|msg|);
      var len := FromWord(w);
      if len > size {
        return TooLong, [];
      }
      var emptyTrips := 0;
      while |got| < len
        invariant |got| <= len && got + data + coming == msg + rest
        invariant emptyTrips < MAX_EMPTY_TRIPS
        decreases len - |got|, MAX_EMPTY_TRIPS - emptyTrips
      {
        ghost var left := data + coming;
        var bytes := ReadCall(len - |got|);
        assert got + bytes + data + coming == got + (bytes + data + coming) == got + left;
        got := got + bytes;
        if bytes == [] {
          emptyTrips := emptyTrips + 1;
          if emptyTrips == MAX_EMPTY_TRIPS {
            return GaveUp, got;
          }
        } else {
          emptyTrips := 0;
        }
      }
      SplitAt(got, data + coming, msg, rest);
      r := Present;
    }

    static lemma HeadWord(w: seq<byte>, left: seq<byte>, msg: Message, rest: seq<byte>)
      requires |w| == 4 && w + left == Frame(msg) + rest
      ensures w == Word(|msg|) && left == msg + rest
    {
      var v := Word(|msg|);
      assert Frame(msg) + rest == v + (msg + rest);
      SplitAt(w, left, v, msg + rest);
    }

    static lemma SplitAt(a: seq<byte>, b: seq<byte>, c: seq<byte>, d: seq<byte>)
      requires |a| == |c| && a + b == c + d
      ensures a == c && b == d
    {
      assert a == (a + b)[..|a|] && c == (c + d)[..|c|];
      assert b == (a + b)[|a|..] && d == (c + d)[|c|..];
    }
  }
}
