/** How received chunks become queued commands (TestDispatcher/TDServerThreads.c,
    `pushThreadCommand`): a per-connection buffer, cut when it ends in three newlines. */
module Framing {
  import opened Common
  import opened RingQueue
  import opened Dispatch

  const BUFFER_LIMIT: nat := 2048
  const MARK := "\n\n\n"

  predicate Complete(text: string) {
    |text| >= 3 && text[|text| - 3..] == MARK
  }

  /** One accepted chunk: the command it completes, the buffer it leaves, the bytes it drops. */
  datatype Pushed = Pushed(command: Option<string>, buffer: string, lost: nat)

  function PushTo(buffer: string, chunk: string): Pushed {
    if |buffer| >= BUFFER_LIMIT then Pushed(None, "", |buffer| + |chunk|)
    else
      var joined := buffer + chunk;
      if Complete(joined) then Pushed(Some(joined[..|joined| - 3]), "", 0)
      else Pushed(None, joined, 0)
  }

  datatype Stream = Stream(queue: seq<string>, buffer: string, lost: nat)

  function Received(buffer: string, chunks: seq<string>): Stream
    decreases chunks
  {
    if chunks == [] then Stream([], buffer, 0)
    else
      var p := PushTo(buffer, chunks[0]);
      var rest := Received(p.buffer, chunks[1..]);
      Stream((if p.command.Some? then [p.command.value] else []) + rest.queue, rest.buffer, p.lost + rest.lost)
  }

  function Frame(message: string): string {
    message + MARK
  }

  function Encoded(messages: seq<string>): string {
    if messages == [] then "" else Frame(messages[0]) + Encoded(messages[1..])
  }

  /** Every byte is accounted for: queued with its mark, pending, or dropped by a reset. */
  lemma {:induction false} BytesCounted(buffer: string, chunks: seq<string>)
    ensures var s := Received(buffer, chunks);
      |buffer| + |Flatten(chunks)| == |Encoded(s.queue)| + |s.buffer| + s.lost
    decreases chunks
  {
    if chunks != [] {
      var p := PushTo(buffer, chunks[0]);
      var rest := Received(p.buffer, chunks[1..]);
      BytesCounted(p.buffer, chunks[1..]);
      if p.command.Some? {
        assert ([p.command.value] + rest.queue)[1..] == rest.queue;
      } else {
        assert [] + rest.queue == rest.queue;
      }
    }
  }

  /** Without a reset the bytes themselves are conserved, in order. */
  lemma {:induction false} BytesConserved(buffer: string, chunks: seq<string>)
    requires Received(buffer, chunks).lost == 0
    ensures var s := Received(buffer, chunks);
      buffer + Flatten(chunks) == Encoded(s.queue) + s.buffer
    decreases chunks
  {
    if chunks == [] {
      assert buffer + [] == [] + buffer;
    } else {
      var p, tail := PushTo(buffer, chunks[0]), chunks[1..];
      var rest := Received(p.buffer, tail);
      BytesConserved(p.buffer, tail);
      Regroup(buffer, chunks[0], Flatten(tail));
      if p.command.Some? {
        var v := p.command.value;
        assert buffer + chunks[0] == Frame(v);
        Regroup(Frame(v), Encoded(rest.queue), rest.buffer);
        Regroup("", "", Flatten(tail));
        var queue := [v] + rest.queue;
        assert queue[1..] == rest.queue;
        assert Encoded(queue) == Frame(v) + Encoded(rest.queue);
      } else {
        assert [] + rest.queue == rest.queue;
      }
    }
  }

  // ---- When the queue receives the messages that were sent -------------------------------

  ghost predicate Plain(message: string) {
    forall i :: 0 <= i < |message| ==> message[i] != '\n'
  }

  ghost predicate AllPlain(messages: seq<string>) {
    forall i :: 0 <= i < |messages| ==> Plain(messages[i])
  }

  ghost predicate NoneEmpty(chunks: seq<string>) {
    forall i :: 0 <= i < |chunks| ==> chunks[i] != ""
  }

  /** No chunk reaches across the end of a message, and none finds the buffer at its limit:
      `buffered` bytes of the current message's frame have come and `rest` is still to come;
      `later` are the messages after it. */
  predicate Intact(buffered: nat, rest: string, later: seq<string>, chunks: seq<string>)
    decreases chunks
  {
    chunks == [] ||
    (var n := |chunks[0]|;
     buffered < BUFFER_LIMIT &&
     if n < |rest| then Intact(buffered + n, rest[n..], later, chunks[1..])
     else n == |rest| && (later != [] ==> Intact(0, Frame(later[0]), later[1..], chunks[1..])))
  }

  /** The first half of that alone. */
  predicate WithinMessages(rest: string, later: seq<string>, chunks: seq<string>)
    decreases chunks
  {
    chunks == [] ||
    (var n := |chunks[0]|;
     if n < |rest| then WithinMessages(rest[n..], later, chunks[1..])
     else n == |rest| && (later != [] ==> WithinMessages(Frame(later[0]), later[1..], chunks[1..])))
  }

  /** A plain message's frame is complete only when it is whole. */
  lemma OnlyTheWholeIsComplete(message: string, part: string)
    requires Plain(message) && part <= Frame(message)
    ensures Complete(part) <==> part == Frame(message)
  {
    var frame := Frame(message);
    assert frame[|message|..] == MARK;
    if |part| >= 3 {
      assert part[|part| - 3] == frame[|part| - 3];
      assert part[|part| - 3..][0] == part[|part| - 3];
      assert |part| < |frame| ==> part[|part| - 3] == message[|part| - 3];
    }
  }

  lemma {:induction false} FirstCommandCovers(buffer: string, chunks: seq<string>)
    requires Received(buffer, chunks).lost == 0 && Received(buffer, chunks).queue != [] && chunks != []
    ensures |Received(buffer, chunks).queue[0]| + 3 >= |buffer| + |chunks[0]|
    decreases chunks
  {
    var p := PushTo(buffer, chunks[0]);
    if p.command.None? && |chunks| > 1 {
      FirstCommandCovers(p.buffer, chunks[1..]);
    }
  }

  lemma FlattenEmpty(chunks: seq<string>)
    requires NoneEmpty(chunks)
    ensures Flatten(chunks) == "" <==> chunks == []
  {
    if chunks != [] {
      assert |Flatten(chunks)| >= |chunks[0]|;
    }
  }

  /** A chunk that reaches past the end of a message keeps it from arriving as such. */
  lemma CrossingChunkMerges(message: string, buffer: string, rest: string, later: seq<string>, chunks: seq<string>)
    requires chunks != [] && buffer + rest == Frame(message) && |chunks[0]| > |rest|
    requires Flatten(chunks) == rest + Encoded(later)
    ensures Received(buffer, chunks).queue != [message] + later
  {
    if Received(buffer, chunks).queue == [message] + later {
      BytesCounted(buffer, chunks);
      assert ([message] + later)[1..] == later;
      FirstCommandCovers(buffer, chunks);
    }
  }

  /** A chunk that finds the buffer at its limit is dropped with it. */
  lemma ResetLosesTheMessage(message: string, buffer: string, rest: string, later: seq<string>, chunks: seq<string>)
    requires chunks != [] && buffer + rest == Frame(message) && |buffer| >= BUFFER_LIMIT
    requires Flatten(chunks) == rest + Encoded(later)
    ensures Received(buffer, chunks).queue != [message] + later
  {
    BytesCounted(buffer, chunks);
    assert ([message] + later)[1..] == later;
    assert Received(buffer, chunks).lost >= |buffer|;
  }

  /** A chunk within a message is the next piece of its frame. */
  lemma ChunkIsNextPiece(rest: string, later: seq<string>, chunks: seq<string>)
    requires chunks != [] && Flatten(chunks) == rest + Encoded(later) && |chunks[0]| <= |rest|
    ensures var n := |chunks[0]|;
      chunks[0] == rest[..n] && Flatten(chunks[1..]) == rest[n..] + Encoded(later)
  {
    var c, tail := chunks[0], chunks[1..];
    assert Flatten(chunks) == c + Flatten(tail);
    assert (c + Flatten(tail))[..|c|] == c && (c + Flatten(tail))[|c|..] == Flatten(tail);
    assert (rest + Encoded(later))[..|c|] == rest[..|c|];
    assert (rest + Encoded(later))[|c|..] == rest[|c|..] + Encoded(later);
  }

  /** It is cut off as the message when the frame is whole, and stays in the buffer before. */
  lemma PushPiece(message: string, buffer: string, rest: string, n: nat)
    requires Plain(message) && buffer + rest == Frame(message) && n <= |rest| && |buffer| < BUFFER_LIMIT
    ensures (buffer + rest[..n]) + rest[n..] == Frame(message)
    ensures PushTo(buffer, rest[..n]) ==
            if n < |rest| then Pushed(None, buffer + rest[..n], 0) else Pushed(Some(message), "", 0)
  {
    var joined := buffer + rest[..n];
    assert joined + rest[n..] == Frame(message);
    assert joined == Frame(message)[..|joined|];
    OnlyTheWholeIsComplete(message, joined);
    assert Frame(message)[..|Frame(message)| - 3] == message;
  }

  lemma SameAfterFirst(message: string, a: seq<string>, b: seq<string>)
    ensures [message] + a == [message] + b <==> a == b
  {
    assert ([message] + a)[1..] == a && ([message] + b)[1..] == b;
  }

  /** Newline-free messages of any length, sent one after the other and split into chunks in any
      way: the queue receives exactly the messages, in order, if and only if no chunk crosses a
      message's end and none finds the buffer at its limit. */
  lemma {:induction false} MessagesArrive(message: string, buffer: string, rest: string, later: seq<string>,
                                          chunks: seq<string>)
    requires Plain(message) && AllPlain(later) && NoneEmpty(chunks)
    requires buffer + rest == Frame(message) && rest != ""
    requires Flatten(chunks) == rest + Encoded(later)
    ensures Received(buffer, chunks).queue == [message] + later <==> Intact(|buffer|, rest, later, chunks)
    decreases chunks
  {
    hide PushTo, Frame, Plain;
    var n, tail := |chunks[0]|, chunks[1..];
    if |buffer| >= BUFFER_LIMIT {
      ResetLosesTheMessage(message, buffer, rest, later, chunks);
    } else if n > |rest| {
      CrossingChunkMerges(message, buffer, rest, later, chunks);
    } else {
      ChunkIsNextPiece(rest, later, chunks);
      PushPiece(message, buffer, rest, n);
      if n < |rest| {
        MessagesArrive(message, buffer + rest[..n], rest[n..], later, tail);
        assert [] + Received(buffer + rest[..n], tail).queue == Received(buffer + rest[..n], tail).queue;
      } else {
        SameAfterFirst(message, Received("", tail).queue, later);
        FlattenEmpty(tail);
        if later != [] {
          FrameIsFirst(later);
          MessagesArrive(later[0], "", Frame(later[0]), later[1..], tail);
        }
      }
    }
  }

  lemma FrameIsFirst(messages: seq<string>)
    requires messages != []
    ensures Encoded(messages) == Frame(messages[0]) + Encoded(messages[1..])
    ensures "" + Frame(messages[0]) == Frame(messages[0]) != "" && messages == [messages[0]] + messages[1..]
  {
  }

  // ---- How many commands there can be ------------------------------------------------------

  function Newlines(text: string): nat {
    if text == "" then 0 else Newlines(text[1..]) + (if text[0] == '\n' then 1 else 0)
  }

  lemma {:induction false} NewlinesOfBoth(a: string, b: string)
    ensures Newlines(a + b) == Newlines(a) + Newlines(b)
  {
    if a == "" {
      assert a + b == b;
    } else {
      assert (a + b)[1..] == a[1..] + b;
      NewlinesOfBoth(a[1..], b);
    }
  }

  lemma NewlinesOfFrame(message: string)
    ensures Newlines(Frame(message)) == Newlines(message) + 3
  {
    NewlinesOfBoth(message, MARK);
    assert MARK[1..] == "\n\n" && MARK[1..][1..] == "\n" && MARK[1..][1..][1..] == "";
  }

  lemma {:induction false} PlainHasNone(message: string)
    requires Plain(message)
    ensures Newlines(message) == 0
  {
    if message != "" { PlainHasNone(message[1..]); }
  }

  lemma {:induction false} NewlinesOfEncoded(messages: seq<string>)
    requires AllPlain(messages)
    ensures Newlines(Encoded(messages)) == 3 * |messages|
  {
    if messages != [] {
      NewlinesOfEncoded(messages[1..]);
      NewlinesOfBoth(Frame(messages[0]), Encoded(messages[1..]));
      NewlinesOfFrame(messages[0]);
      PlainHasNone(messages[0]);
    }
  }

  /** Every command uses up three newlines. */
  lemma {:induction false} CommandsUseNewlines(buffer: string, chunks: seq<string>)
    ensures 3 * |Received(buffer, chunks).queue| <= Newlines(buffer) + Newlines(Flatten(chunks))
    decreases chunks
  {
    if chunks != [] {
      var p := PushTo(buffer, chunks[0]);
      CommandsUseNewlines(p.buffer, chunks[1..]);
      NewlinesOfBoth(chunks[0], Flatten(chunks[1..]));
      NewlinesOfBoth(buffer, chunks[0]);
      if p.command.Some? {
        assert buffer + chunks[0] == Frame(p.command.value);
        NewlinesOfFrame(p.command.value);
      }
    }
  }

  /** Frames that fit the buffer never meet its limit. */
  lemma {:induction false} ShortFramesMeetNoReset(buffered: nat, rest: string, later: seq<string>, chunks: seq<string>)
    requires rest != "" && buffered + |rest| <= BUFFER_LIMIT
    requires forall i :: 0 <= i < |later| ==> |Frame(later[i])| <= BUFFER_LIMIT
    ensures Intact(buffered, rest, later, chunks) <==> WithinMessages(rest, later, chunks)
    decreases chunks
  {
    if chunks != [] {
      var n := |chunks[0]|;
      if n < |rest| {
        ShortFramesMeetNoReset(buffered + n, rest[n..], later, chunks[1..]);
      } else if n == |rest| && later != [] {
        ShortFramesMeetNoReset(0, Frame(later[0]), later[1..], chunks[1..]);
      }
    }
  }

  /** So for messages whose frames fit the buffer only the chunks' ends matter. */
  lemma ShortMessagesArrive(message: string, later: seq<string>, chunks: seq<string>)
    requires Plain(message) && AllPlain(later) && NoneEmpty(chunks)
    requires |Frame(message)| <= BUFFER_LIMIT && forall i :: 0 <= i < |later| ==> |Frame(later[i])| <= BUFFER_LIMIT
    requires Flatten(chunks) == Frame(message) + Encoded(later)
    ensures Received("", chunks).queue == [message] + later <==> WithinMessages(Frame(message), later, chunks)
  {
    assert "" + Frame(message) == Frame(message);
    MessagesArrive(message, "", Frame(message), later, chunks);
    ShortFramesMeetNoReset(0, Frame(message), later, chunks);
  }

  lemma {:induction false} IntactFramesAreBounded(buffered: nat, rest: string, later: seq<string>,
                                                  chunks: seq<string>, k: nat)
    requires rest != "" && Flatten(chunks) == rest + Encoded(later) && Intact(buffered, rest, later, chunks)
    requires forall i :: 0 <= i < |chunks| ==> |chunks[i]| <= k
    ensures buffered + |rest| < BUFFER_LIMIT + k
    ensures forall i :: 0 <= i < |later| ==> |Frame(later[i])| < BUFFER_LIMIT + k
    decreases chunks
  {
    var n := |chunks[0]|;
    var tail := chunks[1..];
    assert Flatten(chunks) == chunks[0] + Flatten(tail);
    if n < |rest| {
      assert Flatten(tail) == Flatten(chunks)[n..] == rest[n..] + Encoded(later);
      IntactFramesAreBounded(buffered + n, rest[n..], later, tail, k);
    } else if later != [] {
      assert Flatten(tail) == Flatten(chunks)[n..] == Encoded(later);
      IntactFramesAreBounded(0, Frame(later[0]), later[1..], tail, k);
      assert forall i :: 0 < i < |later| ==> later[i] == later[1..][i - 1];
    }
  }

  /** With chunks of at most `k` bytes a message whose frame is `BUFFER_LIMIT + k` bytes or longer
      never arrives, however it is split, nor do then all the messages it was sent with. */
  lemma LongMessagesNeverArrive(messages: seq<string>, chunks: seq<string>, k: nat, i: nat)
    requires AllPlain(messages) && NoneEmpty(chunks) && Flatten(chunks) == Encoded(messages)
    requires forall j :: 0 <= j < |chunks| ==> |chunks[j]| <= k
    requires i < |messages| && |Frame(messages[i])| >= BUFFER_LIMIT + k
    ensures Received("", chunks).queue != messages
  {
    var first, later := messages[0], messages[1..];
    assert messages == [first] + later && "" + Frame(first) == Frame(first);
    assert i > 0 ==> messages[i] == later[i - 1];
    MessagesArrive(first, "", Frame(first), later, chunks);
    if Intact(0, Frame(first), later, chunks) {
      IntactFramesAreBounded(0, Frame(first), later, chunks, k);
    }
  }

  /** A message as long as the buffer's limit, sent whole and then its mark: no chunk crosses an
      end, and yet nothing arrives. */
  lemma ResetDropsALongMessage(message: string)
    requires |message| >= BUFFER_LIMIT && !Complete(message)
    ensures WithinMessages(Frame(message), [], [message, MARK])
    ensures Received("", [message, MARK]).queue == []
  {
    var chunks := [message, MARK];
    assert chunks[1..] == [MARK] && [MARK][1..] == [];
    assert "" + message == message && Frame(message)[|message|..] == MARK;
    assert PushTo("", message) == Pushed(None, message, 0);
    assert PushTo(message, MARK) == Pushed(None, "", |message| + 3);
    assert Received(message, [MARK]).queue == [] + Received("", [MARK][1..]).queue;
  }

  /** Two messages in one chunk arrive as one. */
  lemma CoalescedMessagesMerge()
    ensures Received("", [Encoded(["a", "b"])]).queue == ["a\n\n\nb"]
  {
    var text := "a\n\n\nb\n\n\n";
    assert text[|text| - 3..] == MARK;
    assert "" + text == text && text[..|text| - 3] == "a\n\n\nb";
    assert PushTo("", text) == Pushed(Some("a\n\n\nb"), "", 0);
    var chunks: seq<string> := [text];
    assert Received("", chunks).queue == ["a\n\n\nb"] + Received("", chunks[1..]).queue;
    assert Encoded(["a", "b"]) == text by {
      assert ["a", "b"][1..] == ["b"];
      assert Encoded(["b"]) == Frame("b") + Encoded([]);
    }
  }

  // ---- Several connections ---------------------------------------------------------------

  datatype Arrival = Arrival(connection: nat, text: string)

  function OfConnection(arrivals: seq<Arrival>, i: nat): seq<string> {
    if arrivals == [] then []
    else (if arrivals[0].connection == i then [arrivals[0].text] else []) + OfConnection(arrivals[1..], i)
  }

  /** The commands of all connections, in the order in which they are queued. */
  function ReceivedAll(buffers: seq<string>, arrivals: seq<Arrival>): seq<Arrival>
    decreases arrivals
  {
    if arrivals == [] then []
    else
      var Arrival(i, text) := arrivals[0];
      if i >= |buffers| then ReceivedAll(buffers, arrivals[1..])
      else
        var p := PushTo(buffers[i], text);
        (if p.command.Some? then [Arrival(i, p.command.value)] else [])
          + ReceivedAll(buffers[i := p.buffer], arrivals[1..])
  }

  /** However the chunks of the connections interleave, each connection's commands are those of
      its own chunks. */
  lemma {:induction false} ConnectionsDoNotMix(buffers: seq<string>, arrivals: seq<Arrival>, i: nat)
    requires i < |buffers|
    ensures OfConnection(ReceivedAll(buffers, arrivals), i) == Received(buffers[i], OfConnection(arrivals, i)).queue
    decreases arrivals
  {
    if arrivals != [] {
      var Arrival(j, text) := arrivals[0];
      if j >= |buffers| {
        ConnectionsDoNotMix(buffers, arrivals[1..], i);
        assert [] + OfConnection(arrivals[1..], i) == OfConnection(arrivals[1..], i);
      } else {
        var p := PushTo(buffers[j], text);
        var next := ReceivedAll(buffers[j := p.buffer], arrivals[1..]);
        ConnectionsDoNotMix(buffers[j := p.buffer], arrivals[1..], i);
        if p.command.Some? {
          assert ([Arrival(j, p.command.value)] + next)[1..] == next;
        } else {
          assert [] + next == next;
        }
        if j == i {
          assert ([text] + OfConnection(arrivals[1..], i))[1..] == OfConnection(arrivals[1..], i);
        } else {
          assert [] + OfConnection(arrivals[1..], i) == OfConnection(arrivals[1..], i);
        }
      }
    }
  }

  // ---- In place ------------------------------------------------------------------------

  /** The first connection of a thread with this address, or their number. */
  function ConnectionOf(ips: seq<nat>, address: nat): (i: nat)
    ensures i <= |ips| && (i < |ips| ==> ips[i] == address) && address !in ips[..i]
  {
    if ips == [] || ips[0] == address then 0 else 1 + ConnectionOf(ips[1..], address)
  }

  const COMPLETE: int := -2

  class Receiver {
    const thread: nat
    var threadIP: Addresses
    var buffers: seq<string>
    const messageQueue: Queue

    constructor (thread: nat, ips: Addresses, capacity: nat)
      requires capacity >= 2
      ensures this.thread == thread && threadIP == ips
      ensures buffers == seq(CONNECTIONSPERTHREAD, _ => "")
      ensures messageQueue.Model() == Created(capacity, true)
    {
      this.thread, threadIP := thread, ips;
      buffers := seq(CONNECTIONSPERTHREAD, _ => "");
      messageQueue := new Queue(capacity, true);
    }

    /** `pushThreadCommand` for an existing thread. `buffers[i] == ""` stands for a null buffer. */
    method PushThreadCommand(kind: int, fd: nat, address: nat, command: string) returns (r: int)
      requires |buffers| == CONNECTIONSPERTHREAD && messageQueue.Model().Valid()
      requires 2 * messageQueue.cells.Length < 0x1_0000
      modifies this`buffers, messageQueue, messageQueue.cells
      ensures |buffers| == CONNECTIONSPERTHREAD
      ensures var i := ConnectionOf(threadIP, address);
        if command == "" || i == CONNECTIONSPERTHREAD then
          r == ERROR && buffers == old(buffers) && messageQueue.Model() == old(messageQueue.Model())
        else
          var p := PushTo(old(buffers)[i], command);
          && buffers == old(buffers)[i := p.buffer]
          && r == (if p.lost > 0 then ERROR else if p.command.Some? then COMPLETE else i)
          && messageQueue.Model() ==
             (if p.command.Some? then Added(old(messageQueue.Model()), Command(thread, kind, fd, i, p.command.value))
              else old(messageQueue.Model()))
    {
      if |command| == 0 {
        return ERROR;
      }
      var i := 0;
      while i < CONNECTIONSPERTHREAD && threadIP[i] != address
        invariant i <= CONNECTIONSPERTHREAD
        invariant ConnectionOf(threadIP, address) == i + ConnectionOf(threadIP[i..], address)
      {
        i := i + 1;
      }
      if i >= CONNECTIONSPERTHREAD {
        return ERROR;
      }
      if |buffers[i]| >= BUFFER_LIMIT {
        buffers := buffers[i := ""];
        return ERROR;
      }
      var joined := buffers[i] + command;
      buffers := buffers[i := joined];
      var size := |joined|;
      r := i;
      if size >= 3 {
        if joined[size - 1] == '\n' && joined[size - 2] == '\n' && joined[size - 3] == '\n' {
          assert joined[size - 3..] == MARK;
          messageQueue.AddElement(Command(thread, kind, fd, i, joined[..size - 3]));
          buffers := buffers[i := ""];
          r := COMPLETE;
        }
      }
    }
  }
}
