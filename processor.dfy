/** The event processor of processor.go: the outbound sequence counter, the
    chunking `Write`, the user directory and one pass of the event loop. */
module Processing {
  import opened Strings
  import opened Configuration
  import opened Chunking
  import opened Directory
  import opened Dispatch

  /** The only event type the processor sends (processor.go:15). */
  const MessageType: string := "message"

  /** An event sent to the service (processor.go:48-53). */
  datatype Event = Event(id: int, eventType: string, channel: string, text: seq<Byte>)

  /** The events `Write` sends for `cuts`: one message per chunk, in order,
      numbered on from `last`. */
  function MessageEvents(last: int, channel: string, cuts: seq<Cut>): (es: seq<Event>)
    ensures |es| == |cuts|
    decreases |cuts|
  {
    if cuts == [] then []
    else [Event(last + 1, MessageType, channel, cuts[0].chunk)] + MessageEvents(last + 1, channel, cuts[1..])
  }

  /** The `i`-th message carries the `i`-th chunk and the `i`-th id after
      `last`. */
  lemma {:induction false} MessageEventsAt(last: int, channel: string, cuts: seq<Cut>, i: nat)
    requires i < |cuts|
    ensures MessageEvents(last, channel, cuts)[i] == Event(last + i + 1, MessageType, channel, cuts[i].chunk)
    decreases |cuts|
  {
    if i > 0 {
      assert cuts[1..][i - 1] == cuts[i];
      MessageEventsAt(last + 1, channel, cuts[1..], i - 1);
    }
  }

  /** What one pass of the loop of `Write` sends: the message for the next
      cut of what is left, after which the rest of the text is left. */
  lemma WriteStep(rest: seq<Byte>, log: seq<Event>, last: int, channel: string)
    requires rest != []
    ensures |Cuts(rest, AsWritten)| == 1 + |Cuts(NextCut(rest, AsWritten).rest, AsWritten)|
    ensures log + MessageEvents(last, channel, Cuts(rest, AsWritten)) ==
            (log + [Event(last + 1, MessageType, channel, NextCut(rest, AsWritten).chunk)])
              + MessageEvents(last + 1, channel, Cuts(NextCut(rest, AsWritten).rest, AsWritten))
  {
    var cut := NextCut(rest, AsWritten);
    var cuts := Cuts(rest, AsWritten);
    assert cuts == [cut] + Cuts(cut.rest, AsWritten);
    assert cuts[1..] == Cuts(cut.rest, AsWritten);
  }

  /** Empty text sends nothing; text within both limits is sent as one
      message carrying it unchanged (processor.go:85-91). */
  lemma WholeTextIsOneMessage(log: seq<Event>, last: int, channel: string, text: seq<Byte>)
    ensures text == [] ==>
              |Cuts(text, AsWritten)| == 0 && log + MessageEvents(last, channel, Cuts(text, AsWritten)) == log
    ensures text != [] && WithinLimits(text) ==>
              log + MessageEvents(last, channel, Cuts(text, AsWritten)) == log + [Event(last + 1, MessageType, channel, text)]
  {
    WholeTextIsOneCut(text, AsWritten);
    if text == [] {
      assert log + [] == log;
    }
  }

  /** Events numbered 1, 2, 3, ... in the order they were sent. */
  ghost predicate Numbered(events: seq<Event>) {
    forall i :: 0 <= i < |events| ==> events[i].id == i + 1
  }

  /** Numbered events have strictly increasing, hence distinct, ids. */
  lemma NumberedIdsIncrease(events: seq<Event>, i: nat, j: nat)
    requires Numbered(events) && i < j < |events|
    ensures events[i].id < events[j].id
  {
  }

  /** The split branch of `Write` up to the choice of `breakIndex`
      (processor.go:93-118): recounts `lines` over the first
      `MaxMessageSize` bytes and picks the break point. */
  method FindBreak(text: seq<Byte>) returns (breakIndex: nat, lines: nat)
    requires !WithinLimits(text)
    ensures lines == CountedLines(text)
    ensures breakIndex == BreakIndex(text, AsWritten)
  {
    lines := Count(text, Newline);
    // The search window is the whole remaining text: the 4000-byte window
    // declared below only feeds the recount of `lines`, as in the source,
    // where it shadows this one (processor.go:95-100).
    var window := text;
    if |text| > MaxMessageSize {
      var window := text[..MaxMessageSize];
      lines := Count(window, Newline);
    }
    if lines > MaxMessageLines {
      assert MaxMessageLines < Count(window, Newline) by {
        if |text| > MaxMessageSize { CountPrefix(text, MaxMessageSize, Newline); }
      }
      var index: nat := 0;
      var n := 0;
      while index < |window| && n < MaxMessageLines
        invariant 0 <= n <= MaxMessageLines
        invariant index == LineEnd(window, n)
        invariant n < MaxMessageLines ==> index < |window|
        decreases MaxMessageLines - n
      {
        LineEndStep(window, n);
        LineEndCount(window, n + 1);
        var p := Index(window[index..], Newline);
        if p == -1 {
          break;
        }
        index := index + p + 1;
        n := n + 1;
      }
      breakIndex := index;
    } else {
      var lastLineBreak := LastIndex(window, Newline);
      if lastLineBreak > -1 {
        breakIndex := lastLineBreak;
      } else {
        var lastWordBreak := LastIndexAny(window, WordBreaks);
        if lastWordBreak > -1 {
          breakIndex := lastWordBreak;
        } else {
          breakIndex := MaxMessageSize;
        }
      }
    }
  }

  class Processor {
    /** The account the processor is connected as. */
    var self: User
    /** The id of the last event sent. */
    var sequence: int
    /** The user directory, keyed by user id. */
    var users: Users
    /** Every event handed to the connection so far, in order: stands for the
        writes to `p.con`. */
    ghost var Sent: seq<Event>

    /** Every event sent so far carries the next sequence number, and every
        user of the directory is stored under its own id. */
    ghost predicate Valid()
      reads this
    {
      sequence == |Sent| && Numbered(Sent) && KeyedById(users)
    }

    /** `EventProcessor` (processor.go:194-199) before its event loop starts. */
    constructor (config: Config)
      ensures Valid()
      ensures self == config.self && users == map[] && sequence == 0 && Sent == []
    {
      self := config.self;
      sequence := 0;
      users := map[];
      Sent := [];
    }

    /** `sendEvent` (processor.go:62-80): stamps the event with the next
        sequence number and hands it to the connection. */
    method SendEvent(eventType: string, channel: string, text: seq<Byte>)
      requires Valid()
      modifies this`sequence, this`Sent
      ensures Valid()
      ensures sequence == old(sequence) + 1
      ensures Sent == old(Sent) + [Event(sequence, eventType, channel, text)]
    {
      sequence := sequence + 1;
      var event := Event(sequence, eventType, channel, text);
      Sent := Sent + [event];
    }

    /** `Write` (processor.go:84-133): sends `text` on `channel` as one
        message per cut of `Cuts(text, AsWritten)`, numbered consecutively. */
    method Write(channel: string, text: seq<Byte>)
      requires Valid()
      modifies this`sequence, this`Sent
      ensures Valid()
      ensures sequence == old(sequence) + |Cuts(text, AsWritten)|
      ensures Sent == old(Sent) + MessageEvents(old(sequence), channel, Cuts(text, AsWritten))
      ensures text == [] ==> sequence == old(sequence) && Sent == old(Sent)
      ensures text != [] && WithinLimits(text) ==>
                Sent == old(Sent) + [Event(old(sequence) + 1, MessageType, channel, text)]
    {
      var rest := text;
      while |rest| > 0
        invariant Valid()
        invariant sequence + |Cuts(rest, AsWritten)| == old(sequence) + |Cuts(text, AsWritten)|
        invariant Sent + MessageEvents(sequence, channel, Cuts(rest, AsWritten)) ==
                  old(Sent) + MessageEvents(old(sequence), channel, Cuts(text, AsWritten))
        decreases |rest|
      {
        rest := SendChunk(channel, rest);
      }
      assert Sent + MessageEvents(sequence, channel, []) == Sent;
      assert Sent == old(Sent) + MessageEvents(old(sequence), channel, Cuts(text, AsWritten));
      WholeTextIsOneMessage(old(Sent), old(sequence), channel, text);
    }

    /** One pass of the loop of `Write` (processor.go:85-131): sends the
        next chunk of `rest` and returns what is left to send. */
    method SendChunk(channel: string, rest: seq<Byte>) returns (next: seq<Byte>)
      requires Valid() && rest != []
      modifies this`sequence, this`Sent
      ensures Valid()
      ensures sequence == old(sequence) + 1
      ensures Sent == old(Sent) + [Event(old(sequence) + 1, MessageType, channel, NextCut(rest, AsWritten).chunk)]
      ensures next == NextCut(rest, AsWritten).rest
      ensures sequence + |Cuts(next, AsWritten)| == old(sequence) + |Cuts(rest, AsWritten)|
      ensures Sent + MessageEvents(sequence, channel, Cuts(next, AsWritten)) ==
              old(Sent) + MessageEvents(old(sequence), channel, Cuts(rest, AsWritten))
      ensures |next| < |rest|
    {
      WriteStep(rest, Sent, sequence, channel);
      var lines := Count(rest, Newline);
      if |rest| <= MaxMessageSize && lines <= MaxMessageLines {
        SendEvent(MessageType, channel, rest);
        next := [];
      } else {
        var breakIndex: nat;
        breakIndex, lines := FindBreak(rest);
        SendEvent(MessageType, channel, rest[..breakIndex]);
        if breakIndex != MaxMessageSize && lines <= MaxMessageLines {
          breakIndex := breakIndex + 1;
        }
        next := rest[breakIndex..];
      }
    }

    /** `updateUser` (processor.go:176-177): upserts `u` into the directory. */
    method UpdateUser(u: User)
      requires Valid()
      modifies this`users
      ensures Valid()
      ensures users == Upsert(old(users), u)
    {
      users := users[u.id := u];
    }

    /** `onConnected` (processor.go:183-190): takes the configured account as
        its own and upserts every configured user, in list order. */
    method OnConnected(config: Config)
      requires Valid()
      modifies this`self, this`users
      ensures Valid()
      ensures self == config.self
      ensures users == UpsertAll(old(users), config.users)
    {
      self := config.self;
      var i := 0;
      while i < |config.users|
        invariant 0 <= i <= |config.users|
        invariant Valid()
        invariant self == config.self
        invariant users == UpsertAll(old(users), config.users[..i])
      {
        assert config.users[..i + 1][..i] == config.users[..i];
        UpdateUser(config.users[i]);
        i := i + 1;
      }
      assert config.users[..i] == config.users;
    }

    /** One pass of the event loop of `Start` (processor.go:138-171) on what
        `con.Read()` delivered, with the handlers of processor.go:200-236;
        `config` is the connection's current handshake result. */
    method Receive(msg: Inbound, config: Config)
      requires Valid() && WellTyped(msg)
      modifies this`self, this`users
      ensures Valid()
      ensures Route(msg) == Some(OnHello) ==>
                self == config.self && users == UpsertAll(old(users), config.users)
      ensures Route(msg) == Some(OnUserChange) && msg.frame.changedUser.Decoded? ==>
                self == old(self) && users == Upsert(old(users), msg.frame.changedUser.user)
      ensures Route(msg) == Some(OnUserChange) && msg.frame.changedUser.DecodeError? ==>
                self == old(self) && users == Upsert(old(users), ZeroUser) && users[""] == ZeroUser
      ensures Route(msg) != Some(OnHello) && Route(msg) != Some(OnUserChange) ==>
                self == old(self) && users == old(users)
    {
      var handler := Route(msg);
      match handler {
        case Some(OnHello) =>
          OnConnected(config);
        case Some(OnUserChange) =>
          // A failed decode still upserts Go's zero `User`, under the empty id.
          match msg.frame.changedUser {
            case Decoded(u) => UpdateUser(u);
            case DecodeError => UpdateUser(ZeroUser);
          }
        case _ =>
          // `message` and `error` handlers only log; other frames are ignored.
      }
    }
  }
}
